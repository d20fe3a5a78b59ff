/** `MergeManifests`: combines a base list and an overlay list of Kubernetes
    manifests. Manifests are string-keyed maps owned by the caller; the merge
    returns a list that holds the caller's own base maps (updated in place)
    followed by the overlay maps that matched no base manifest. */
module Manifests {
  import opened Strings

  /** A decoded manifest value: the shapes the provider's value decoder
      produces. Floating-point numbers are kept as their IEEE 754 bit pattern;
      nothing computes on them. */
  datatype Value =
    | Str(s: string)
    | Int(i: int)
    | Float(bits: bv64)
    | Bool(b: bool)
    | Null
    | List(items: seq<Value>)
    | Obj(fields: map<string, Value>)

  type Fields = map<string, Value>

  /** A manifest map. The merge writes into the caller's map, so a manifest
      is an object whose `fields` the merge updates. */
  class Manifest {
    var fields: Fields

    constructor (fields: Fields)
      ensures this.fields == fields
    {
      this.fields := fields;
    }
  }

  /** A diagnostic the merge could report (it never reports one). */
  datatype Diagnostic = Diagnostic(summary: string, detail: string)

  // ---------------------------------------------------------------------------
  // Identity key

  /** The string at top-level key `k`, or "" when it is absent or not a string. */
  function StringField(m: Fields, k: string): string
  {
    if k in m && m[k].Str? then m[k].s else ""
  }

  /** `apiVersion`, `kind` and `metadata.name`; each is "" when absent or not a
      string, and `name` is "" when `metadata` is absent or not a map. */
  datatype Identity = Identity(apiVersion: string, kind: string, name: string)

  function IdentityOf(m: Fields): Identity
  {
    Identity(
      StringField(m, "apiVersion"),
      StringField(m, "kind"),
      if "metadata" in m && m["metadata"].Obj? then StringField(m["metadata"].fields, "name") else "")
  }

  /** The key string `apiVersion|kind|name`. */
  function KeyOf(id: Identity): string
  {
    id.apiVersion + "|" + id.kind + "|" + id.name
  }

  /** The key the merge files a manifest under. */
  function ManifestKey(m: Fields): string
  {
    KeyOf(IdentityOf(m))
  }

  /** No component of the identity holds the separator `|`. */
  predicate SeparatorFree(id: Identity)
  {
    '|' !in id.apiVersion && '|' !in id.kind && '|' !in id.name
  }

  /** Splitting a key on `|` gives back its three components, provided none of
      them holds `|` itself. */
  lemma KeySplitsIntoIdentity(id: Identity)
    requires SeparatorFree(id)
    ensures Split(KeyOf(id), '|') == [id.apiVersion, id.kind, id.name]
  {
    var parts := [id.apiVersion, id.kind, id.name];
    assert parts[1..][1..] == [id.name];
    assert parts[1..] == [id.kind, id.name];
    assert Join(parts[1..], '|') == id.kind + "|" + id.name;
    assert Join(parts, '|') == KeyOf(id);
    SplitJoin(parts, '|');
  }

  /** Two manifests whose identity components are free of `|` share a key
      exactly when their identities are equal. */
  lemma KeyInjective(a: Fields, b: Fields)
    requires SeparatorFree(IdentityOf(a)) && SeparatorFree(IdentityOf(b))
    ensures ManifestKey(a) == ManifestKey(b) <==> IdentityOf(a) == IdentityOf(b)
  {
    KeySplitsIntoIdentity(IdentityOf(a));
    KeySplitsIntoIdentity(IdentityOf(b));
  }

  /** Distinct identities collide once a component holds `|`. */
  lemma KeyCollision()
    ensures Identity("a|b", "c", "d") != Identity("a", "b|c", "d")
    ensures KeyOf(Identity("a|b", "c", "d")) == KeyOf(Identity("a", "b|c", "d"))
  {
  }

  /** A manifest without a name (no `metadata`, a `metadata` that is not a
      map, or a name that is not a string) has the key of one whose name is
      the empty string, under the same `apiVersion` and `kind`. */
  lemma MissingNameMatchesEmptyName(a: Fields, b: Fields)
    requires StringField(a, "apiVersion") == StringField(b, "apiVersion")
    requires StringField(a, "kind") == StringField(b, "kind")
    requires "metadata" !in a || !a["metadata"].Obj? || StringField(a["metadata"].fields, "name") == ""
    requires "metadata" in b && b["metadata"] == Obj(map["name" := Str("")])
    ensures ManifestKey(a) == ManifestKey(b)
  {
  }

  // ---------------------------------------------------------------------------
  // Specification of the merge over a snapshot of the manifests' fields

  /** The fields of each manifest object at one moment. */
  type Store = map<Manifest, Fields>

  /** The merge's state between two overlay manifests: every manifest's
      fields, and the result list so far. */
  datatype State = State(store: Store, merged: seq<Manifest>)

  ghost function Snapshot(objs: set<Manifest>): (store: Store)
    reads objs
    ensures store.Keys == objs
  {
    map m | m in objs :: m.fields
  }

  /** The manifests a list holds. */
  function Elements(ms: seq<Manifest>): (objs: set<Manifest>)
    ensures forall m <- objs :: m in ms
    ensures forall m <- ms :: m in objs
  {
    if ms == [] then {} else {ms[0]} + Elements(ms[1..])
  }

  /** The manifests of both lists. */
  function Objects(ms1: seq<Manifest>, ms2: seq<Manifest>): (objs: set<Manifest>)
    ensures forall m <- objs :: m in ms1 || m in ms2
    ensures forall m <- ms1 :: m in objs
    ensures forall m <- ms2 :: m in objs
  {
    Elements(ms1) + Elements(ms2)
  }

  /** The fields `store` records for `m` (none when it records nothing). */
  function FieldsOf(store: Store, m: Manifest): Fields
  {
    if m in store then store[m] else map[]
  }

  /** The key of the manifest at position `i` of `base`. */
  function KeyAt(base: seq<Manifest>, store: Store, i: nat): string
    requires i < |base|
  {
    ManifestKey(FieldsOf(store, base[i]))
  }

  /** Some manifest among the first `n` of `base` has key `key`. */
  predicate HasKey(base: seq<Manifest>, store: Store, key: string, n: nat)
    requires n <= |base|
  {
    exists i :: 0 <= i < n && KeyAt(base, store, i) == key
  }

  /** The index from key to position built from the first `n` base manifests,
      each writing its own position under its key in turn. */
  function BuildIndex(base: seq<Manifest>, store: Store, n: nat): (index: map<string, nat>)
    requires n <= |base|
    ensures forall key <- index :: index[key] < n
    decreases n
  {
    if n == 0 then map[] else BuildIndex(base, store, n - 1)[KeyAt(base, store, n - 1) := n - 1]
  }

  /** The index the merge builds from the whole base list. */
  function Index(base: seq<Manifest>, store: Store): (index: map<string, nat>)
    ensures forall key <- index :: index[key] < |base|
  {
    BuildIndex(base, store, |base|)
  }

  /** A key is in the index iff one of the first `n` base manifests has it,
      and it then points at the LAST of them that has it. */
  lemma BuildIndexLastWins(base: seq<Manifest>, store: Store, n: nat)
    requires n <= |base|
    ensures var index := BuildIndex(base, store, n);
      && (forall key :: key in index <==> HasKey(base, store, key, n))
      && (forall key <- index ::
           && KeyAt(base, store, index[key]) == key
           && forall j :: index[key] < j < n ==> KeyAt(base, store, j) != key)
  {
    BuildIndexKeys(base, store, n);
    BuildIndexPositions(base, store, n);
  }

  /** The keys of the index are the keys of the first `n` base manifests. */
  lemma {:induction false} BuildIndexKeys(base: seq<Manifest>, store: Store, n: nat)
    requires n <= |base|
    ensures forall key :: key in BuildIndex(base, store, n) <==> HasKey(base, store, key, n)
    decreases n
  {
    if n > 0 {
      BuildIndexKeys(base, store, n - 1);
      forall key | HasKey(base, store, key, n)
        ensures HasKey(base, store, key, n - 1) || KeyAt(base, store, n - 1) == key
      {
        var i :| 0 <= i < n && KeyAt(base, store, i) == key;
        if i < n - 1 { assert HasKey(base, store, key, n - 1); }
      }
      forall key | HasKey(base, store, key, n - 1) ensures HasKey(base, store, key, n) {
        var i :| 0 <= i < n - 1 && KeyAt(base, store, i) == key;
      }
    }
  }

  /** Each key of the index points at a position holding that key, and no
      later one of the first `n` positions holds it. */
  lemma {:induction false} BuildIndexPositions(base: seq<Manifest>, store: Store, n: nat)
    requires n <= |base|
    ensures forall key <- BuildIndex(base, store, n) ::
      && KeyAt(base, store, BuildIndex(base, store, n)[key]) == key
      && forall j :: BuildIndex(base, store, n)[key] < j < n ==> KeyAt(base, store, j) != key
    decreases n
  {
    if n > 0 {
      BuildIndexPositions(base, store, n - 1);
    }
  }

  /** Every position in `index` is a position of `merged`. */
  predicate IndexFits(index: map<string, nat>, merged: seq<Manifest>)
  {
    forall key <- index :: index[key] < |merged|
  }

  /** Processing one overlay manifest: when its key is in the index, its
      top-level fields are written over those of the indexed manifest (map
      union; nested values are replaced whole); otherwise it is appended to
      the result, and the index is left as it is. */
  function Step(index: map<string, nat>, st: State, m2: Manifest): (st': State)
    requires IndexFits(index, st.merged)
    ensures IndexFits(index, st'.merged)
    ensures |st.merged| <= |st'.merged| <= |st.merged| + 1
    ensures forall i :: 0 <= i < |st.merged| ==> st'.merged[i] == st.merged[i]
  {
    var key := ManifestKey(FieldsOf(st.store, m2));
    if key in index then
      var target := st.merged[index[key]];
      State(st.store[target := FieldsOf(st.store, target) + FieldsOf(st.store, m2)], st.merged)
    else
      State(st.store, st.merged + [m2])
  }

  /** The overlay manifests processed in order. */
  function ApplyOverlay(index: map<string, nat>, st: State, overlay: seq<Manifest>): (st': State)
    requires IndexFits(index, st.merged)
    ensures |st.merged| <= |st'.merged| <= |st.merged| + |overlay|
    ensures forall i :: 0 <= i < |st.merged| ==> st'.merged[i] == st.merged[i]
    decreases |overlay|
  {
    if overlay == [] then st else ApplyOverlay(index, Step(index, st, overlay[0]), overlay[1..])
  }

  /** The whole merge, from the fields every manifest had on entry: the base
      list first, then the overlay manifests processed in order against the
      index built from the base list. The result starts with the base list
      and has at most one more entry per overlay manifest. */
  function Merge(base: seq<Manifest>, overlay: seq<Manifest>, store: Store): (st': State)
    ensures |base| <= |st'.merged| <= |base| + |overlay|
    ensures st'.merged[..|base|] == base
  {
    ApplyOverlay(Index(base, store), State(store, base), overlay)
  }

  // ---------------------------------------------------------------------------
  // Reference description of the result, for overlay maps that are not also
  // base maps

  /** The overlay manifests, in overlay order, whose key is not in `index`
      (for the merge's index, by `BuildIndexLastWins`: whose key no base
      manifest has). */
  function Unmatched(index: map<string, nat>, overlay: seq<Manifest>, store: Store): (r: seq<Manifest>)
    ensures |r| <= |overlay|
  {
    if overlay == [] then []
    else
      (if ManifestKey(FieldsOf(store, overlay[0])) in index then [] else [overlay[0]])
      + Unmatched(index, overlay[1..], store)
  }

  /** The fields of the overlay manifests, in overlay order, that are written
      onto base manifest `t`: those whose key `index` maps to a position
      holding `t`. */
  function UpdatesFor(t: Manifest, base: seq<Manifest>, index: map<string, nat>, overlay: seq<Manifest>, store: Store): (r: seq<Fields>)
    requires IndexFits(index, base)
    ensures |r| <= |overlay|
  {
    if overlay == [] then []
    else
      var key := ManifestKey(FieldsOf(store, overlay[0]));
      (if key in index && base[index[key]] == t then [FieldsOf(store, overlay[0])] else [])
      + UpdatesFor(t, base, index, overlay[1..], store)
  }

  /** `fields` with each map of `updates` written over it in turn. */
  function Overlaid(fields: Fields, updates: seq<Fields>): Fields
    decreases |updates|
  {
    if updates == [] then fields else Overlaid(fields + updates[0], updates[1..])
  }

  /** Per key, the last update that holds the key decides its value; a key no
      update holds keeps the value it had (or stays absent). */
  lemma {:induction false} OverlaidLastWins(fields: Fields, updates: seq<Fields>, k: string)
    ensures k in Overlaid(fields, updates) <==>
      k in fields || exists j :: 0 <= j < |updates| && k in updates[j]
    ensures (forall j :: 0 <= j < |updates| ==> k !in updates[j]) && k in fields ==>
      Overlaid(fields, updates)[k] == fields[k]
    ensures forall j ::
      (0 <= j < |updates| && k in updates[j] && forall j' :: j < j' < |updates| ==> k !in updates[j']) ==>
      Overlaid(fields, updates)[k] == updates[j][k]
    decreases |updates|
  {
    if updates != [] {
      var rest := updates[1..];
      OverlaidLastWins(fields + updates[0], rest, k);
      assert forall j :: 1 <= j < |updates| ==> updates[j] == rest[j - 1];
      assert (exists j :: 0 <= j < |updates| && k in updates[j]) <==>
        k in updates[0] || exists j :: 0 <= j < |rest| && k in rest[j]
      by {
        if exists j :: 0 <= j < |updates| && k in updates[j] {
          var j :| 0 <= j < |updates| && k in updates[j];
          if j > 0 { assert k in rest[j - 1]; }
        }
        if exists j :: 0 <= j < |rest| && k in rest[j] {
          var j :| 0 <= j < |rest| && k in rest[j];
          assert k in updates[j + 1];
        }
      }
      forall j | 0 <= j < |updates| && k in updates[j]
        && (forall j' :: j < j' < |updates| ==> k !in updates[j'])
        ensures Overlaid(fields, updates)[k] == updates[j][k]
      {
        if j > 0 {
          assert k in rest[j - 1];
          assert forall j' :: j - 1 < j' < |rest| ==> k !in rest[j'] by {
            forall j' | j - 1 < j' < |rest| ensures k !in rest[j'] {
              assert rest[j'] == updates[j' + 1];
            }
          }
        } else {
          assert forall j' :: 0 <= j' < |rest| ==> k !in rest[j'] by {
            forall j' | 0 <= j' < |rest| ensures k !in rest[j'] {
              assert rest[j'] == updates[j' + 1];
            }
          }
        }
      }
    }
  }

  /** A state met while processing overlay manifests that are not base
      manifests: the result list starts with the base list, and the overlay
      manifests still to come have the fields they had on entry. */
  predicate OverlayInvariant(index: map<string, nat>, base: seq<Manifest>, store0: Store, st: State, overlay: seq<Manifest>)
  {
    && IndexFits(index, base)
    && IndexFits(index, st.merged)
    && (forall m <- overlay :: m !in base)
    && (forall m <- overlay :: FieldsOf(st.store, m) == FieldsOf(store0, m))
    && |base| <= |st.merged|
    && (forall i :: 0 <= i < |base| ==> st.merged[i] == base[i])
  }

  /** Processing an overlay manifest that is not a base manifest leads to a
      state of the same kind for the manifests after it. */
  lemma StepKeepsInvariant(index: map<string, nat>, base: seq<Manifest>, store0: Store, st: State, overlay: seq<Manifest>)
    requires overlay != [] && OverlayInvariant(index, base, store0, st, overlay)
    ensures OverlayInvariant(index, base, store0, Step(index, st, overlay[0]), overlay[1..])
  {
    var m := overlay[0];
    assert FieldsOf(st.store, m) == FieldsOf(store0, m);
    var key := ManifestKey(FieldsOf(store0, m));
    if key in index {
      var t := base[index[key]];
      assert st.merged[index[key]] == t;
      assert t in base;
      forall m' | m' in overlay[1..] ensures m' != t {
        assert m' in overlay;
      }
    }
  }

  /** An overlay manifest whose key is not in the index is appended; one
      whose key is leaves the result list as it is. */
  lemma StepMerged(index: map<string, nat>, base: seq<Manifest>, store0: Store, st: State, overlay: seq<Manifest>)
    requires overlay != [] && OverlayInvariant(index, base, store0, st, overlay)
    ensures Step(index, st, overlay[0]).merged ==
      st.merged + (if ManifestKey(FieldsOf(store0, overlay[0])) in index then [] else [overlay[0]])
  {
    assert FieldsOf(st.store, overlay[0]) == FieldsOf(store0, overlay[0]);
  }

  /** An overlay manifest whose key is in the index has its fields written
      over those of the base manifest the index points at; no other
      manifest changes. */
  lemma StepStore(index: map<string, nat>, base: seq<Manifest>, store0: Store, st: State, overlay: seq<Manifest>, t: Manifest)
    requires overlay != [] && OverlayInvariant(index, base, store0, st, overlay)
    ensures FieldsOf(Step(index, st, overlay[0]).store, t) ==
      if ManifestKey(FieldsOf(store0, overlay[0])) in index
         && base[index[ManifestKey(FieldsOf(store0, overlay[0]))]] == t
      then FieldsOf(st.store, t) + FieldsOf(store0, overlay[0])
      else FieldsOf(st.store, t)
  {
    var m := overlay[0];
    assert FieldsOf(st.store, m) == FieldsOf(store0, m);
    var key := ManifestKey(FieldsOf(store0, m));
    if key in index {
      assert st.merged[index[key]] == base[index[key]];
    }
  }

  /** `merged` with the overlay manifests whose key is not in `index`
      appended one at a time, in overlay order. */
  function AppendUnmatched(index: map<string, nat>, merged: seq<Manifest>, overlay: seq<Manifest>, store: Store): seq<Manifest>
    decreases |overlay|
  {
    if overlay == [] then merged
    else
      var key := ManifestKey(FieldsOf(store, overlay[0]));
      AppendUnmatched(index, merged + (if key in index then [] else [overlay[0]]), overlay[1..], store)
  }

  /** Appending the unmatched overlay manifests one at a time appends
      `Unmatched` as a whole. */
  lemma {:induction false} AppendUnmatchedIsUnmatched(index: map<string, nat>, merged: seq<Manifest>, overlay: seq<Manifest>, store: Store)
    ensures AppendUnmatched(index, merged, overlay, store) == merged + Unmatched(index, overlay, store)
    decreases |overlay|
  {
    if overlay != [] {
      var key := ManifestKey(FieldsOf(store, overlay[0]));
      var u := if key in index then [] else [overlay[0]];
      var later := Unmatched(index, overlay[1..], store);
      AppendUnmatchedIsUnmatched(index, merged + u, overlay[1..], store);
      assert (merged + u) + later == merged + (u + later);
    }
  }

  /** Processing overlay manifests that are not base manifests appends the
      unmatched ones, in overlay order. */
  lemma {:induction false} ApplyOverlayAppends(index: map<string, nat>, base: seq<Manifest>, store0: Store, st: State, overlay: seq<Manifest>)
    requires OverlayInvariant(index, base, store0, st, overlay)
    ensures ApplyOverlay(index, st, overlay).merged == AppendUnmatched(index, st.merged, overlay, store0)
    decreases |overlay|
  {
    if overlay != [] {
      StepMerged(index, base, store0, st, overlay);
      StepKeepsInvariant(index, base, store0, st, overlay);
      ApplyOverlayAppends(index, base, store0, Step(index, st, overlay[0]), overlay[1..]);
    }
  }

  /** Processing overlay manifests that are not base manifests writes onto
      each base manifest its updates, in overlay order. */
  lemma {:induction false} ApplyOverlayWrites(index: map<string, nat>, base: seq<Manifest>, store0: Store, st: State, overlay: seq<Manifest>)
    requires OverlayInvariant(index, base, store0, st, overlay)
    ensures forall t <- base :: FieldsOf(ApplyOverlay(index, st, overlay).store, t)
                             == Overlaid(FieldsOf(st.store, t), UpdatesFor(t, base, index, overlay, store0))
    decreases |overlay|
  {
    if overlay != [] {
      var m, rest := overlay[0], overlay[1..];
      var key := ManifestKey(FieldsOf(store0, m));
      var st1 := Step(index, st, m);
      StepKeepsInvariant(index, base, store0, st, overlay);
      ApplyOverlayWrites(index, base, store0, st1, rest);
      forall t <- base
        ensures FieldsOf(ApplyOverlay(index, st1, rest).store, t)
             == Overlaid(FieldsOf(st.store, t), UpdatesFor(t, base, index, overlay, store0))
      {
        StepStore(index, base, store0, st, overlay, t);
        var u := UpdatesFor(t, base, index, rest, store0);
        if key in index && base[index[key]] == t {
          assert UpdatesFor(t, base, index, overlay, store0) == [FieldsOf(store0, m)] + u;
          assert ([FieldsOf(store0, m)] + u)[1..] == u;
        } else {
          assert UpdatesFor(t, base, index, overlay, store0) == u;
        }
      }
    }
  }

  /** Processing overlay manifests that are not base manifests changes no
      manifest outside the base list. */
  lemma {:induction false} ApplyOverlayKeepsOthers(index: map<string, nat>, base: seq<Manifest>, store0: Store, st: State, overlay: seq<Manifest>)
    requires OverlayInvariant(index, base, store0, st, overlay)
    ensures forall m | m !in base :: FieldsOf(ApplyOverlay(index, st, overlay).store, m) == FieldsOf(st.store, m)
    decreases |overlay|
  {
    if overlay != [] {
      var st1 := Step(index, st, overlay[0]);
      StepKeepsInvariant(index, base, store0, st, overlay);
      ApplyOverlayKeepsOthers(index, base, store0, st1, overlay[1..]);
      forall m | m !in base ensures FieldsOf(st1.store, m) == FieldsOf(st.store, m) {
        StepStore(index, base, store0, st, overlay, m);
      }
    }
  }

  /** The merge's result, for overlay maps that are not also base maps: the
      base list followed by the unmatched overlay manifests in overlay order;
      each base manifest's fields are its own with its matching overlay
      manifests' fields written over them in overlay order; every other
      manifest is unchanged. */
  lemma MergeResult(base: seq<Manifest>, overlay: seq<Manifest>, store: Store)
    requires forall m <- overlay :: m !in base
    ensures var r := Merge(base, overlay, store);
      var index := Index(base, store);
      && r.merged == base + Unmatched(index, overlay, store)
      && |r.merged| == |base| + |Unmatched(index, overlay, store)|
      && (forall t <- base :: FieldsOf(r.store, t) == Overlaid(FieldsOf(store, t), UpdatesFor(t, base, index, overlay, store)))
      && (forall m | m !in base :: FieldsOf(r.store, m) == FieldsOf(store, m))
  {
    var index := Index(base, store);
    var st := State(store, base);
    assert OverlayInvariant(index, base, store, st, overlay);
    ApplyOverlayAppends(index, base, store, st, overlay);
    AppendUnmatchedIsUnmatched(index, base, overlay, store);
    ApplyOverlayWrites(index, base, store, st, overlay);
    ApplyOverlayKeepsOthers(index, base, store, st, overlay);
  }

  /** An empty overlay leaves the base list and every manifest as they were. */
  lemma MergeEmptyOverlay(base: seq<Manifest>, store: Store)
    ensures Merge(base, [], store) == State(store, base)
  {
  }

  /** An overlay manifest appended to the result is not entered in the index:
      a later overlay manifest with the same key is appended again. */
  lemma AppendedNeverIndexed(base: seq<Manifest>, a: Manifest, b: Manifest, store: Store)
    requires a !in base && b !in base
    requires ManifestKey(FieldsOf(store, a)) == ManifestKey(FieldsOf(store, b))
    requires !HasKey(base, store, ManifestKey(FieldsOf(store, a)), |base|)
    ensures Merge(base, [a, b], store).merged == base + [a, b]
  {
    MergeResult(base, [a, b], store);
    BuildIndexLastWins(base, store, |base|);
    assert [a, b][1..] == [b];
  }

  /** Two overlay manifests with the key of base manifest `base[i]`, where no
      later base manifest has that key, are written onto it in overlay order,
      so where both have a field the second one's value wins. */
  lemma OverlayOrderLastWins(base: seq<Manifest>, a: Manifest, b: Manifest, store: Store, i: nat)
    requires a !in base && b !in base
    requires i < |base|
    requires ManifestKey(FieldsOf(store, a)) == KeyAt(base, store, i) == ManifestKey(FieldsOf(store, b))
    requires forall j :: i < j < |base| ==> KeyAt(base, store, j) != KeyAt(base, store, i)
    ensures FieldsOf(Merge(base, [a, b], store).store, base[i])
         == FieldsOf(store, base[i]) + FieldsOf(store, a) + FieldsOf(store, b)
  {
    MergeResult(base, [a, b], store);
    IndexPointsAtLast(base, store, i);
    var index := Index(base, store);
    var fa, fb := FieldsOf(store, a), FieldsOf(store, b);
    assert [a, b][1..] == [b];
    assert UpdatesFor(base[i], base, index, [b], store) == [fb];
    assert UpdatesFor(base[i], base, index, [a, b], store) == [fa, fb];
    assert [fa, fb][1..] == [fb];
    assert [fb][1..] == [];
    var f := FieldsOf(store, base[i]);
    assert Overlaid(f, [fa, fb]) == Overlaid(f + fa, [fb]) == Overlaid(f + fa + fb, []);
    assert base[i] in base;
  }

  /** The index maps the key of a base manifest that no later base manifest
      shares to that manifest's position. */
  lemma IndexPointsAtLast(base: seq<Manifest>, store: Store, i: nat)
    requires i < |base|
    requires forall j :: i < j < |base| ==> KeyAt(base, store, j) != KeyAt(base, store, i)
    ensures var index := Index(base, store);
      KeyAt(base, store, i) in index && index[KeyAt(base, store, i)] == i
  {
    BuildIndexLastWins(base, store, |base|);
    assert HasKey(base, store, KeyAt(base, store, i), |base|);
  }

  /** When several base manifests share a key, only the last of them is
      indexed: an earlier one (held at no other position) receives no overlay
      fields at all. */
  lemma ShadowedBaseUnchanged(base: seq<Manifest>, overlay: seq<Manifest>, store: Store, p: nat, q: nat)
    requires forall m <- overlay :: m !in base
    requires p < q < |base|
    requires KeyAt(base, store, p) == KeyAt(base, store, q)
    requires forall j :: 0 <= j < |base| && j != p ==> base[j] != base[p]
    ensures FieldsOf(Merge(base, overlay, store).store, base[p]) == FieldsOf(store, base[p])
  {
    var index := Index(base, store);
    ShadowedNotIndexed(base, store, p, q);
    NoUpdatesForShadowed(base, index, overlay, store, p);
    MergeResult(base, overlay, store);
    assert base[p] in base;
    assert Overlaid(FieldsOf(store, base[p]), []) == FieldsOf(store, base[p]);
  }

  /** No key of the index points at a base position whose key recurs later. */
  lemma ShadowedNotIndexed(base: seq<Manifest>, store: Store, p: nat, q: nat)
    requires p < q < |base|
    requires KeyAt(base, store, p) == KeyAt(base, store, q)
    ensures forall key <- Index(base, store) :: Index(base, store)[key] != p
  {
    var index := Index(base, store);
    BuildIndexLastWins(base, store, |base|);
    assert index == BuildIndex(base, store, |base|);
    forall key <- index ensures index[key] != p {
      assert KeyAt(base, store, index[key]) == key;
      assert KeyAt(base, store, q) == KeyAt(base, store, p);
    }
  }

  lemma {:induction false} NoUpdatesForShadowed(base: seq<Manifest>, index: map<string, nat>, overlay: seq<Manifest>, store: Store, p: nat)
    requires IndexFits(index, base)
    requires p < |base|
    requires forall j :: 0 <= j < |base| && j != p ==> base[j] != base[p]
    requires forall key <- index :: index[key] != p
    ensures UpdatesFor(base[p], base, index, overlay, store) == []
    decreases |overlay|
  {
    if overlay != [] {
      NoUpdatesForShadowed(base, index, overlay[1..], store, p);
    }
  }

  /** The merge is shallow: a nested map in the overlay replaces the base's
      nested map at that key instead of being merged into it. */
  lemma ShallowNotDeep(base: Fields, overlay: Fields)
    requires base == map["spec" := Obj(map["x" := Int(1)])]
    requires overlay == map["spec" := Obj(map["y" := Int(2)])]
    ensures var r := Overlaid(base, [overlay]);
      && "spec" in r
      && r["spec"] == Obj(map["y" := Int(2)])
      && r["spec"] != Obj(map["x" := Int(1), "y" := Int(2)])
  {
    assert [overlay][1..] == [];
    assert Overlaid(base, [overlay]) == base + overlay;
    assert "x" !in map["y" := Int(2)];
  }

  // ---------------------------------------------------------------------------
  // The merge itself

  /** Writes every top-level field of `src` into `target`, key by key. */
  method OverwriteFields(target: Manifest, src: Fields)
    modifies target
    ensures target.fields == old(target.fields) + src
  {
    var keys := src.Keys;
    while keys != {}
      invariant keys <= src.Keys
      invariant target.fields == old(target.fields) + (src - keys)
      decreases keys
    {
      var k :| k in keys;
      target.fields := target.fields[k := src[k]];
      keys := keys - {k};
      assert src - keys == (src - (keys + {k}))[k := src[k]];
    }
    assert src - {} == src;
  }

  /** Maps the key of every manifest of `base` to its position, a later
      position overwriting an earlier one with the same key. */
  method IndexManifests(base: seq<Manifest>, ghost store: Store) returns (index: map<string, nat>)
    requires forall m <- base :: m in store && m.fields == store[m]
    ensures index == Index(base, store)
  {
    index := map[];
    var i := 0;
    while i < |base|
      invariant 0 <= i <= |base|
      invariant index == BuildIndex(base, store, i)
    {
      var m := base[i];
      assert m.fields == FieldsOf(store, m);
      index := index[ManifestKey(m.fields) := i];
      i := i + 1;
    }
  }

  /** Merges `manifests2` onto `manifests1`. The result holds the caller's
      base maps in base order, then the overlay maps whose key is not in the
      index; a matched overlay map's fields are written into the base map in
      place. Diagnostics are always empty. */
  method MergeManifests(manifests1: seq<Manifest>, manifests2: seq<Manifest>)
    returns (merged: seq<Manifest>, diags: seq<Diagnostic>)
    modifies set m | m in manifests1
    ensures diags == []
    ensures |manifests1| <= |merged| <= |manifests1| + |manifests2|
    ensures merged[..|manifests1|] == manifests1
    ensures var r := Merge(manifests1, manifests2, old(Snapshot(Objects(manifests1, manifests2))));
      && merged == r.merged
      && forall m <- Objects(manifests1, manifests2) :: m.fields == FieldsOf(r.store, m)
  {
    ghost var store := Snapshot(Objects(manifests1, manifests2));
    var index := IndexManifests(manifests1, store);
    merged := OverlayManifests(manifests1, index, manifests2, store);
    diags := [];
  }

  /** The second half of the merge: walks `overlay` in order, writing a
      matched manifest's fields into the indexed base manifest and appending
      an unmatched one. `store` is the fields of every manifest involved at
      the start. */
  method OverlayManifests(base: seq<Manifest>, index: map<string, nat>, overlay: seq<Manifest>, ghost store: Store)
    returns (merged: seq<Manifest>)
    requires IndexFits(index, base)
    requires forall m <- base :: m in store
    requires forall m <- overlay :: m in store
    requires forall m <- store :: m.fields == store[m]
    modifies set m | m in base
    ensures var r := ApplyOverlay(index, State(store, base), overlay);
      && merged == r.merged
      && forall m <- store :: m.fields == FieldsOf(r.store, m)
  {
    ghost var cur := store;
    merged := base;
    var j := 0;
    while j < |overlay|
      invariant 0 <= j <= |overlay|
      invariant |base| <= |merged| && forall i :: 0 <= i < |base| ==> merged[i] == base[i]
      invariant IndexFits(index, merged)
      invariant forall m <- store :: m.fields == FieldsOf(cur, m)
      invariant ApplyOverlay(index, State(cur, merged), overlay[j..])
             == ApplyOverlay(index, State(store, base), overlay)
    {
      assert overlay[j..][0] == overlay[j] && overlay[j..][1..] == overlay[j + 1..];
      ghost var st1 := Step(index, State(cur, merged), overlay[j]);
      merged := OverlayOne(base, index, merged, overlay[j], cur, store);
      cur := st1.store;
      j := j + 1;
    }
    assert overlay[j..] == [];
  }

  /** One turn of the overlay loop, in place: the method form of `Step`. */
  method OverlayOne(base: seq<Manifest>, index: map<string, nat>, merged: seq<Manifest>, m2: Manifest,
                    ghost cur: Store, ghost store: Store)
    returns (merged': seq<Manifest>)
    requires IndexFits(index, base)
    requires |base| <= |merged| && forall i :: 0 <= i < |base| ==> merged[i] == base[i]
    requires m2 in store
    requires forall m <- base :: m in store
    requires forall m <- store :: m.fields == FieldsOf(cur, m)
    modifies set m | m in base
    ensures var st := Step(index, State(cur, merged), m2);
      && merged' == st.merged
      && forall m <- store :: m.fields == FieldsOf(st.store, m)
  {
    var key := ManifestKey(m2.fields);
    if key in index {
      var target := merged[index[key]];
      assert target == base[index[key]];
      OverwriteFields(target, m2.fields);
      merged' := merged;
    } else {
      merged' := merged + [m2];
    }
  }
}
