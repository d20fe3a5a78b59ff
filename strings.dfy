/** A model of Go's `strings.Split(s, sep)` for a separator of one character,
    together with its inverse `Join` and the occurrence count that fixes how
    many parts a split yields. */
module Strings {

  /** Number of occurrences of `sep` in `s`. */
  function Count(s: string, sep: char): nat
  {
    if s == [] then 0 else (if s[0] == sep then 1 else 0) + Count(s[1..], sep)
  }

  /** Puts `sep` between consecutive parts. */
  function Join(parts: seq<string>, sep: char): string
    requires |parts| >= 1
  {
    if |parts| == 1 then parts[0] else parts[0] + [sep] + Join(parts[1..], sep)
  }

  /** `strings.Split(s, string(sep))`: the pieces of `s` between occurrences of
      `sep`. The empty string splits into one empty part, as in Go. */
  function Split(s: string, sep: char): (parts: seq<string>)
    ensures |parts| == Count(s, sep) + 1
    ensures forall i :: 0 <= i < |parts| ==> sep !in parts[i]
    ensures Join(parts, sep) == s
  {
    if s == [] then [""]
    else
      var rest := Split(s[1..], sep);
      if s[0] == sep then
        [""] + rest
      else
        var parts := [[s[0]] + rest[0]] + rest[1..];
        assert parts[1..] == rest[1..];
        assert Join(parts, sep) == [s[0]] + Join(rest, sep);
        parts
  }

  /** A string free of `sep` is split into itself alone. */
  lemma {:induction false} SplitWithoutSeparator(s: string, sep: char)
    requires sep !in s
    ensures Split(s, sep) == [s]
  {
    if s != [] {
      SplitWithoutSeparator(s[1..], sep);
    }
  }

  /** Splitting at a first separator yields the text before it, then the
      split of the text after it. */
  lemma {:induction false} SplitAtFirstSeparator(p: string, sep: char, x: string)
    requires sep !in p
    ensures Split(p + [sep] + x, sep) == [p] + Split(x, sep)
  {
    if p == [] {
      assert p + [sep] + x == [sep] + x;
      assert ([sep] + x)[1..] == x;
    } else {
      assert (p + [sep] + x)[1..] == p[1..] + [sep] + x;
      SplitAtFirstSeparator(p[1..], sep, x);
      assert [p[0]] + p[1..] == p;
    }
  }

  /** Round trip: parts that are free of `sep` are recovered by splitting
      their join. Together with the ensures of `Split`, this makes `Split`
      and `Join` inverse to each other. */
  lemma {:induction false} SplitJoin(parts: seq<string>, sep: char)
    requires |parts| >= 1
    requires forall i :: 0 <= i < |parts| ==> sep !in parts[i]
    ensures Split(Join(parts, sep), sep) == parts
  {
    if |parts| == 1 {
      SplitWithoutSeparator(parts[0], sep);
    } else {
      SplitJoin(parts[1..], sep);
      SplitAtFirstSeparator(parts[0], sep, Join(parts[1..], sep));
      assert [parts[0]] + parts[1..] == parts;
    }
  }

  /** A string splits into exactly two parts iff it holds exactly one
      separator, and then the parts are the text before and after it. */
  lemma {:induction false} SplitInTwo(s: string, sep: char)
    ensures |Split(s, sep)| == 2 <==> Count(s, sep) == 1
    ensures |Split(s, sep)| == 2 ==>
      var parts := Split(s, sep);
      && s == parts[0] + [sep] + parts[1]
      && sep !in parts[0] && sep !in parts[1]
  {
    var parts := Split(s, sep);
    if |parts| == 2 {
      assert parts[1..] == [parts[1]];
      assert Join(parts, sep) == parts[0] + [sep] + parts[1];
    }
  }
}
