# Manifest merge and GitHub name helpers of terraform-provider-utilities

This project models three provider functions of the Terraform utilities
provider in Dafny and proves properties of the model.

- `merge_manifests` combines a base list and an overlay list of Kubernetes
  manifests. Each manifest is a string-keyed map.
  - Each manifest is filed under the key `apiVersion|kind|metadata.name`.
  - Every base manifest is placed in the result, and its position is recorded
    under its key.
  - An overlay manifest whose key is recorded has its top-level fields
    written over the recorded base manifest. Any other overlay manifest is
    appended.
- `get_github_owner` returns the part before the single `/` of an
  `owner/repo` name.
- `get_github_repo_name` returns the part after that `/`.
- Both helpers reject a name that does not split on `/` into exactly two
  parts.

Modules:

- `Strings` models Go's `strings.Split` for a one-character separator. It
  also holds its inverse `Join` and the occurrence count `Count`.
- `FuncErrors` holds the function-error value and the `Result` of running a
  provider function.
- `GithubOwner` and `GithubRepoName` are the two helpers, as pure functions
  of the decoded argument.
- `Manifests` holds the merge itself.
  - The merge writes into the caller's maps. So a manifest is a `class
    Manifest` whose `fields` the method `MergeManifests` updates in place.
  - Its two loops are the methods `IndexManifests` and `OverlayManifests`.
    The turn of the overlay loop is `OverlayOne`, and the field copy is
    `OverwriteFields`.
  - The method is proved against a ghost specification, `Merge`. It is a
    left fold of `Step` over the overlay list, on a snapshot (`Store`) of
    every manifest's fields taken on entry.
  - The ensures clause of `MergeManifests` covers any aliasing between list
    elements, within one list or across the two.
  - `MergeResult` then describes `Merge` by reference definitions, when no
    overlay object is also a base object:
    - `Unmatched` is the list of appended manifests.
    - `UpdatesFor` and `Overlaid` give each base manifest's new fields.
    - Every other manifest is unchanged.

Three facts about the code shape the model:

- The merge is shallow: an overlay manifest's top-level fields are written
  over the base manifest's, so a nested map such as `spec` is replaced whole
  (`ShallowNotDeep`).
- The result holds the caller's own base maps, and the merge writes into
  them.
- Base positions are recorded under their keys in turn, so of several base
  manifests with one key the last one is the one that receives overlay
  fields (`BuildIndexLastWins`, `ShadowedBaseUnchanged`).

## Model

| member | source | states |
|---|---|---|
| Strings.Split | internal/functions/get_github_owner.go:46 | `strings.Split` on one character: there are occurrence-count-plus-one parts, no part holds the separator, and joining the parts gives back the input |
| Strings.SplitJoin | internal/functions/get_github_owner.go:46 | round trip: splitting the join of separator-free parts gives back those parts |
| Strings.SplitInTwo | internal/functions/get_github_owner.go:46-47 | a split has exactly two parts iff the input holds exactly one separator, and then the input is the first part, the separator and the second part |
| GithubOwner.GetGithubOwner | internal/functions/get_github_owner.go:41-52 | a decoding error is returned unchanged. Otherwise the call succeeds iff the name holds exactly one `/`, fails with the "Invalid repository name" error otherwise, and on success returns the `/`-free text before the `/`, with a `/`-free rest after it |
| GithubOwner.EmptyOwnerAccepted | internal/functions/get_github_owner.go:46-52 | `/repo` is accepted and gives the empty owner |
| GithubRepoName.GetGithubRepoName | internal/functions/get_github_repo_name.go:41-52 | a decoding error is returned unchanged. Otherwise the call succeeds iff the name holds exactly one `/`, fails with the "Invalid repository name" error otherwise, and on success returns the `/`-free text after the `/`, preceded by a `/`-free prefix |
| GithubRepoName.EmptyRepoNameAccepted | internal/functions/get_github_repo_name.go:46-52 | `owner/` is accepted and gives the empty repository name |
| GithubRepoName.OwnerAndRepoNameRecombine | internal/functions/get_github_repo_name.go:46-52 | both helpers accept the same names, and on those owner + `/` + repository name is the name |
| Manifests.ManifestKey | internal/functions/merge_manifests.go:16-25 | the key is `apiVersion\|kind\|name`, with `""` for each missing or non-string part and for a missing or non-map `metadata`; `KeyInjective` and `MissingNameMatchesEmptyName` state this, and `KeySplitsIntoIdentity` decodes it |
| Manifests.KeySplitsIntoIdentity | internal/functions/merge_manifests.go:24 | a key whose components hold no `\|` splits on `\|` back into `apiVersion`, `kind` and `name` |
| Manifests.KeyInjective | internal/functions/merge_manifests.go:16-25 | for `\|`-free components, two manifests share a key exactly when their identity triples are equal |
| Manifests.KeyCollision | internal/functions/merge_manifests.go:24 | distinct triples collide once a component holds `\|` |
| Manifests.MissingNameMatchesEmptyName | internal/functions/merge_manifests.go:17-23 | a missing or non-string name, or a missing or non-map `metadata`, gives the key of the empty name |
| Manifests.BuildIndexLastWins | internal/functions/merge_manifests.go:27-30 | a key is in the index iff some base manifest has it, and it points at the last base position that has it |
| Manifests.BuildIndexKeys | internal/functions/merge_manifests.go:27-30 | the index's keys are exactly the keys of the base manifests seen so far |
| Manifests.BuildIndexPositions | internal/functions/merge_manifests.go:27-30 | each index entry points at a position with that key, and no later position seen so far has it |
| Manifests.IndexPointsAtLast | internal/functions/merge_manifests.go:27-30 | a base manifest that no later one shares a key with is the one indexed under its key |
| Manifests.ShadowedNotIndexed | internal/functions/merge_manifests.go:27-30 | no index entry points at a base position whose key recurs later |
| Manifests.BuildIndex | internal/functions/merge_manifests.go:27-30 | after `n` base manifests, every indexed position is below `n` |
| Manifests.Index | internal/functions/merge_manifests.go:13-30 | every position in the merge's index is a position of the base list |
| Manifests.Step | internal/functions/merge_manifests.go:33-41 | one overlay manifest adds at most one entry to the result and changes none of the existing entries |
| Manifests.ApplyOverlay | internal/functions/merge_manifests.go:32-42 | the overlay loop adds at most one entry per overlay manifest and changes none of the existing entries |
| Manifests.Unmatched | internal/functions/merge_manifests.go:39-41 | there are no more unmatched overlay manifests than overlay manifests |
| Manifests.UpdatesFor | internal/functions/merge_manifests.go:34-38 | a base manifest receives at most one update per overlay manifest |
| Manifests.Merge | internal/functions/merge_manifests.go:12-42 | the result starts with the base list and has between `len(manifests1)` and `len(manifests1)+len(manifests2)` entries |
| Manifests.StepKeepsInvariant | internal/functions/merge_manifests.go:32-41 | processing an overlay manifest that is not a base manifest keeps the result prefixed by the base list and leaves the later overlay manifests' fields as they were |
| Manifests.StepMerged | internal/functions/merge_manifests.go:33-41 | an overlay manifest with an indexed key leaves the result list as it is, and any other one is appended |
| Manifests.StepStore | internal/functions/merge_manifests.go:33-38 | a matched overlay manifest's fields are written over the indexed base manifest's fields, and no other manifest changes |
| Manifests.AppendUnmatchedIsUnmatched | internal/functions/merge_manifests.go:39-41 | appending the unmatched overlay manifests one at a time appends `Unmatched` as a whole |
| Manifests.ApplyOverlayAppends | internal/functions/merge_manifests.go:32-41 | the overlay loop appends exactly the unmatched overlay manifests, in overlay order |
| Manifests.ApplyOverlayWrites | internal/functions/merge_manifests.go:32-38 | the overlay loop leaves each base manifest with its own fields overwritten by those of its matching overlay manifests, in overlay order |
| Manifests.ApplyOverlayKeepsOthers | internal/functions/merge_manifests.go:32-41 | the overlay loop changes no manifest outside the base list |
| Manifests.MergeResult | internal/functions/merge_manifests.go:12-42 | the result is the base list followed by the unmatched overlay manifests in overlay order, so its length is `len(manifests1)` plus their number. Each base manifest gets its matching overlay fields in overlay order, and every other manifest is unchanged |
| Manifests.MergeEmptyOverlay | internal/functions/merge_manifests.go:27-32 | an empty overlay leaves the base list and every manifest as they were |
| Manifests.OverlaidLastWins | internal/functions/merge_manifests.go:34-38 | after writing updates in turn, a key holds the value of the last update that has it, keeps its old value when no update has it, and is present iff it was present or some update has it |
| Manifests.AppendedNeverIndexed | internal/functions/merge_manifests.go:27-41 | two overlay manifests with the same key, absent from the base, are both appended: the first is never indexed |
| Manifests.OverlayOrderLastWins | internal/functions/merge_manifests.go:32-38 | two overlay manifests matching the same base manifest are written onto it in overlay order, so the second one's value wins |
| Manifests.ShadowedBaseUnchanged | internal/functions/merge_manifests.go:27-30 | of base manifests sharing a key, an earlier one receives no overlay fields |
| Manifests.NoUpdatesForShadowed | internal/functions/merge_manifests.go:34 | a base position the index never points at receives no updates |
| Manifests.ShallowNotDeep | internal/functions/merge_manifests.go:35-37 | an overlay's nested map replaces the base's nested map at that key, instead of being merged into it |
| Manifests.OverwriteFields | internal/functions/merge_manifests.go:36-38 | the target's new fields are its old fields with every field of the source written over them |
| Manifests.IndexManifests | internal/functions/merge_manifests.go:13-30 | the loop builds exactly `Index`, the key-to-last-position map of the base list |
| Manifests.OverlayOne | internal/functions/merge_manifests.go:33-41 | one turn of the overlay loop, in place, does what `Step` says to the result list and to every manifest's fields |
| Manifests.OverlayManifests | internal/functions/merge_manifests.go:32-42 | the overlay loop, in place, ends with the result list and the manifests' fields that `ApplyOverlay` gives |
| Manifests.MergeManifests | internal/functions/merge_manifests.go:11-45 | the diagnostics are empty. The result starts with the caller's base manifests, as the same objects, and has between `len(manifests1)` and `len(manifests1)+len(manifests2)` entries. The result list and every manifest's new fields are those `Merge` gives from the fields on entry, whatever objects the lists share |
| Manifests.Manifest.constructor | internal/functions/merge_manifests.go:11 | a manifest object holds the map it is made from |

## Left out

- internal/functions/merge_manifests_function.go is not part of this model. It is the plugin-framework glue that decodes the dynamic arguments into maps, checks for null and unknown values, encodes each result with `json.Marshal`, and sets the result. `MergeManifests` takes its output, lists of string-keyed maps, as input.
- Value: floating-point numbers are kept as bit patterns and integers are unbounded. The merge only compares strings and copies values, so neither matters to it.
- Go's map iteration order in the field-copy loop is not modelled. `OverwriteFields` picks keys in an arbitrary order, and the final map does not depend on it.
- The `ctx` parameter of `MergeManifests` is dropped, because it is unused.
- GithubOwner.GetGithubOwner: the error `resp.Result.Set` could return on success is not modelled, because it comes from framework code outside this model. The same holds for GithubRepoName.GetGithubRepoName.
- Argument decoding (`req.Arguments.Get`) is represented by its outcome, the `arg` parameter of each helper.
- The `Metadata` and `Definition` methods of each provider function are static descriptions and are not modelled.
- internal/functions/delay_value.go (sleeps), internal/functions/get_env.go (reads the environment), internal/provider/provider.go and main.go (registration and serving) are not part of this model.
- Manifests.MergeResult, Manifests.AppendedNeverIndexed, Manifests.OverlayOrderLastWins and Manifests.ShadowedBaseUnchanged assume that no overlay object is also a base object, which is how the provider calls the merge: both lists are freshly decoded. `MergeManifests` itself makes no such assumption, and its contract, through `Merge`, covers shared objects too.
- Manifests.MergeManifests: the inputs are what `attrObjectToGo` (internal/functions/merge_manifests_function.go:139-145) produces, fresh non-nil maps that share nothing below the top level. So the model leaves out the panic Go raises when an overlay manifest with key `||` and at least one field matches a nil base map, and a base map that is also held as a nested value of another manifest, whose in-place update would show through that reference; `Value` is a datatype and cannot hold a reference.
