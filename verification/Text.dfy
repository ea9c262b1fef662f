/**
 The text operations the crawler relies on: splitting and joining on one
 character, splitting once, and the bytewise order a text column is compared by.
 */
module Text {
  import opened Wrappers

  /** `str::split(c)` collected: never empty, and "" gives one empty part. */
  function Split(s: string, c: char): (parts: seq<string>)
    ensures |parts| > 0
  {
    if s == "" then [""]
    else if s[0] == c then [""] + Split(s[1..], c)
    else
      var rest := Split(s[1..], c);
      [[s[0]] + rest[0]] + rest[1..]
  }

  /** `join` with a one-character separator. */
  function Join(parts: seq<string>, c: char): string
  {
    if |parts| == 0 then ""
    else if |parts| == 1 then parts[0]
    else parts[0] + [c] + Join(parts[1..], c)
  }

  /** `str::split_once(c)`: cut at the first occurrence of `c`. */
  function SplitOnce(s: string, c: char): (r: Option<(string, string)>)
    ensures r.None? <==> c !in s
    ensures r.Some? ==> s == r.value.0 + [c] + r.value.1 && c !in r.value.0
  {
    if s == "" then None
    else if s[0] == c then Some(("", s[1..]))
    else
      match SplitOnce(s[1..], c)
      case None => None
      case Some(cut) =>
        assert s == [s[0]] + s[1..];
        Some(([s[0]] + cut.0, cut.1))
  }

  ghost predicate SeparatorFree(parts: seq<string>, c: char) {
    forall i :: 0 <= i < |parts| ==> c !in parts[i]
  }

  /** Splitting and joining again gives back every text unchanged. */
  lemma {:induction false} JoinOfSplit(s: string, c: char)
    ensures Join(Split(s, c), c) == s
  {
    if s != "" {
      var rest := Split(s[1..], c);
      JoinOfSplit(s[1..], c);
      assert s == [s[0]] + s[1..];
      if s[0] == c {
        assert ([""] + rest)[1..] == rest;
      } else {
        var parts := [[s[0]] + rest[0]] + rest[1..];
        assert parts[1..] == rest[1..];
      }
    }
  }

  /** No part produced by a split holds the separator. */
  lemma {:induction false} SplitIsSeparatorFree(s: string, c: char)
    ensures SeparatorFree(Split(s, c), c)
  {
    if s != "" {
      SplitIsSeparatorFree(s[1..], c);
    }
  }

  /** A separator-free head followed by the separator is cut off first. */
  lemma {:induction false} SplitHead(head: string, tail: string, c: char)
    requires c !in head
    ensures Split(head + [c] + tail, c) == [head] + Split(tail, c)
    ensures Split(head, c) == [head]
  {
    if head == "" {
      assert head + [c] + tail == [c] + tail;
    } else {
      SplitHead(head[1..], tail, c);
      assert (head + [c] + tail)[1..] == head[1..] + [c] + tail;
      assert head == [head[0]] + head[1..];
    }
  }

  lemma {:induction false} SplitOfJoinSeparatorFree(parts: seq<string>, c: char)
    requires parts != [] && SeparatorFree(parts, c)
    ensures Split(Join(parts, c), c) == parts
  {
    if |parts| == 1 {
      SplitHead(parts[0], "", c);
    } else {
      SplitHead(parts[0], Join(parts[1..], c), c);
      SplitOfJoinSeparatorFree(parts[1..], c);
    }
  }

  /** Joining and splitting again is the identity on exactly the non-empty, separator-free lists. */
  lemma SplitOfJoin(parts: seq<string>, c: char)
    ensures Split(Join(parts, c), c) == parts <==> parts != [] && SeparatorFree(parts, c)
  {
    SplitIsSeparatorFree(Join(parts, c), c);
    if parts != [] && SeparatorFree(parts, c) {
      SplitOfJoinSeparatorFree(parts, c);
    }
  }

  /** Nothing joined is the empty text, which splits into one empty part. */
  lemma JoinOfNothing(c: char)
    ensures Join([], c) == "" && Split("", c) == [""]
  {
  }

  /** Bytewise `<` on text, as a text column under a binary collation is compared. */
  predicate TextLess(a: string, b: string)
  {
    if b == "" then false
    else if a == "" then true
    else if a[0] != b[0] then a[0] < b[0]
    else TextLess(a[1..], b[1..])
  }

  /** A common prefix does not matter to the order. */
  lemma {:induction false} TextLessAfterPrefix(p: string, a: string, b: string)
    ensures TextLess(p + a, p + b) == TextLess(a, b)
  {
    if p == "" {
      assert p + a == a && p + b == b;
    } else {
      assert (p + a)[1..] == p[1..] + a && (p + b)[1..] == p[1..] + b;
      TextLessAfterPrefix(p[1..], a, b);
    }
  }

  /** The first difference decides. */
  lemma TextLessAt(a: string, b: string, i: nat)
    requires i < |a| && i < |b|
    requires a[..i] == b[..i]
    requires a[i] < b[i]
    ensures TextLess(a, b)
  {
    TextLessAfterPrefix(a[..i], a[i..], b[i..]);
    assert a == a[..i] + a[i..] && b == b[..i] + b[i..];
  }

  ghost predicate FirstDifference(a: string, b: string, i: nat) {
    i < |a| && i < |b| && a[..i] == b[..i] && a[i] != b[i]
  }

  /** One text is below another exactly when it is a proper prefix of it or below it at the first difference. */
  lemma {:induction false} TextLessExactly(a: string, b: string)
    ensures TextLess(a, b) <==> a < b || exists i: nat :: FirstDifference(a, b, i) && a[i] < b[i]
  {
    if a == "" || b == "" {
    } else if a[0] != b[0] {
      assert FirstDifference(a, b, 0);
      assert forall i: nat :: FirstDifference(a, b, i) ==> i == 0 || a[..i][0] == b[..i][0];
    } else {
      TextLessExactly(a[1..], b[1..]);
      DifferenceInTail(a, b);
      assert a == [a[0]] + a[1..] && b == [b[0]] + b[1..];
      assert a < b <==> a[1..] < b[1..];
    }
  }

  lemma DifferenceInTail(a: string, b: string)
    requires a != "" && b != "" && a[0] == b[0]
    ensures (exists i: nat :: FirstDifference(a, b, i) && a[i] < b[i]) <==>
            (exists i: nat :: FirstDifference(a[1..], b[1..], i) && a[1..][i] < b[1..][i])
  {
    if i: nat :| FirstDifference(a, b, i) && a[i] < b[i] {
      assert a[1..][..i - 1] == a[..i][1..] && b[1..][..i - 1] == b[..i][1..];
      assert FirstDifference(a[1..], b[1..], i - 1);
    }
    if i: nat :| FirstDifference(a[1..], b[1..], i) && a[1..][i] < b[1..][i] {
      assert a[..i + 1] == [a[0]] + a[1..][..i] && b[..i + 1] == [b[0]] + b[1..][..i];
      assert FirstDifference(a, b, i + 1);
    }
  }

  /** The order is strict: never both ways, and irreflexive. */
  lemma {:induction false} TextLessAsymmetric(a: string, b: string)
    ensures !(TextLess(a, b) && TextLess(b, a))
  {
    if a != "" && b != "" && a[0] == b[0] {
      TextLessAsymmetric(a[1..], b[1..]);
    }
  }
}
