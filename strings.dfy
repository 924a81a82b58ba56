/** Go's `strings.Index`, `strings.Split` and `strings.Join`, for a non-empty separator,
    with the facts the path operations of the tree rely on. */
module Strings {

  /** `sep` occurs in `s` starting at position `i`. */
  predicate OccursAt(s: string, sep: string, i: nat) {
    i + |sep| <= |s| && s[i..i + |sep|] == sep
  }

  /** The first position at or after `from` where `sep` occurs in `s`, or -1 when there is none. */
  function IndexFrom(s: string, sep: string, from: nat): (r: int)
    decreases |s| - from
    ensures r == -1 || (from <= r && OccursAt(s, sep, r))
    ensures forall j: nat :: from <= j && (r == -1 || j < r) ==> !OccursAt(s, sep, j)
  {
    if from + |sep| > |s| then -1
    else if s[from..from + |sep|] == sep then from
    else IndexFrom(s, sep, from + 1)
  }

  /** `strings.Index(s, sep)`: the first position where `sep` occurs in `s`, or -1. */
  function Index(s: string, sep: string): int {
    IndexFrom(s, sep, 0)
  }

  /** The part of `s` before the first occurrence of `sep` holds no occurrence of it. */
  lemma NoneBefore(s: string, sep: string, i: nat)
    requires |sep| > 0 && i == Index(s, sep)
    ensures Index(s[..i], sep) == -1
  {
    assert OccursAt(s, sep, i);
    forall j: nat | j + |sep| <= i
      ensures !OccursAt(s[..i], sep, j)
    {
      assert !OccursAt(s, sep, j);
      assert s[..i][j..j + |sep|] == s[j..j + |sep|];
    }
  }

  /** `strings.Split(s, sep)`: cut `s` at every occurrence of `sep`, scanning left to right.
      There is always at least one segment, and no segment holds the separator. */
  function Split(s: string, sep: string): (r: seq<string>)
    requires |sep| > 0
    ensures |r| >= 1
    ensures forall k :: 0 <= k < |r| ==> Index(r[k], sep) == -1
    decreases |s|
  {
    var i := Index(s, sep);
    if i < 0 then [s]
    else
      NoneBefore(s, sep, i);
      [s[..i]] + Split(s[i + |sep|..], sep)
  }

  /** `strings.Join(segs, sep)`: the segments with `sep` between each two neighbours. */
  function Join(segs: seq<string>, sep: string): string {
    if |segs| == 0 then ""
    else if |segs| == 1 then segs[0]
    else segs[0] + sep + Join(segs[1..], sep)
  }

  /** A segment that reads back as itself when followed by `sep`: no occurrence of `sep`
      starts inside it, even one that runs on into the separator after it. For a
      one-character separator this says the segment does not contain that character. */
  predicate Separable(seg: string, sep: string) {
    forall j: nat :: j < |seg| ==> !OccursAt(seg + sep, sep, j)
  }

  /** Splitting never yields an empty list, and an empty string is a single empty segment. */
  lemma {:induction false} SplitShape(s: string, sep: string)
    requires |sep| > 0
    ensures |Split(s, sep)| >= 1
    ensures |s| == 0 ==> Split(s, sep) == [""]
    ensures |Split(s, sep)| == 1 <==> Index(s, sep) < 0
    ensures Split(s, sep)[0] == (if Index(s, sep) < 0 then s else s[..Index(s, sep)])
  {
  }

  /** Joining the pieces of a split gives the original string back. */
  lemma {:induction false} JoinSplit(s: string, sep: string)
    requires |sep| > 0
    ensures Join(Split(s, sep), sep) == s
    decreases |s|
  {
    var i := Index(s, sep);
    if i >= 0 {
      var rest := s[i + |sep|..];
      var tail := Split(rest, sep);
      assert Split(s, sep) == [s[..i]] + tail;
      JoinSplit(rest, sep);
      SplitShape(rest, sep);
      JoinCons(s[..i], tail, sep);
      assert OccursAt(s, sep, i);
      Slices(s, i, i + |sep|);
    }
  }

  /** A string is its three slices at `i` and `j`, put back together. */
  lemma Slices(s: string, i: nat, j: nat)
    requires i <= j <= |s|
    ensures s == s[..i] + s[i..j] + s[j..]
  {
    assert s[..j] == s[..i] + s[i..j];
    assert s == s[..j] + s[j..];
  }

  /** Joining a segment in front of at least one more puts the separator after it. */
  lemma JoinCons(x: string, tail: seq<string>, sep: string)
    requires |tail| >= 1
    ensures Join([x] + tail, sep) == x + sep + Join(tail, sep)
  {
    assert ([x] + tail)[1..] == tail;
  }

  /** The fact the recursion of Search and Insert rests on: when a path has more than one
      segment, re-joining all but the first and splitting again gives exactly those
      segments, and the re-joined sub-path is strictly shorter than the path. */
  lemma {:induction false} SplitTail(s: string, sep: string)
    requires |sep| > 0
    requires |Split(s, sep)| > 1
    ensures Split(Join(Split(s, sep)[1..], sep), sep) == Split(s, sep)[1..]
    ensures |Join(Split(s, sep)[1..], sep)| < |s|
  {
    var i := Index(s, sep);
    assert i >= 0;
    var rest := s[i + |sep|..];
    assert Split(s, sep)[1..] == Split(rest, sep);
    JoinSplit(rest, sep);
  }

  /** Splitting a join of separable segments gives the segments back. */
  lemma {:induction false} SplitJoin(segs: seq<string>, sep: string)
    requires |sep| > 0 && |segs| >= 1
    requires forall k :: 0 <= k < |segs| ==> Separable(segs[k], sep)
    ensures Split(Join(segs, sep), sep) == segs
    decreases |segs|
  {
    var a := segs[0];
    if |segs| == 1 {
      NoOccurrence(a, sep);
    } else {
      var rest := Join(segs[1..], sep);
      var s := a + sep + rest;
      assert Join(segs, sep) == s;
      assert OccursAt(s, sep, |a|) by {
        assert s[|a|..|a| + |sep|] == sep;
      }
      forall j: nat | j < |a|
        ensures !OccursAt(s, sep, j)
      {
        assert !OccursAt(a + sep, sep, j);
        if j + |sep| <= |s| {
          assert s[j..j + |sep|] == (a + sep)[j..j + |sep|];
        }
      }
      var i := Index(s, sep);
      assert i == |a|;
      assert s[..i] == a;
      assert s[i + |sep|..] == rest;
      SplitJoin(segs[1..], sep);
    }
  }

  /** A separable segment holds no occurrence of the separator at all. */
  lemma NoOccurrence(a: string, sep: string)
    requires |sep| > 0 && Separable(a, sep)
    ensures Index(a, sep) == -1
  {
    forall j: nat | j + |sep| <= |a|
      ensures !OccursAt(a, sep, j)
    {
      assert !OccursAt(a + sep, sep, j);
      assert a[j..j + |sep|] == (a + sep)[j..j + |sep|];
    }
  }

  /** For a one-character separator, a segment is separable exactly when it does not
      contain that character. */
  lemma {:induction false} SeparableOneChar(seg: string, c: char)
    ensures Separable(seg, [c]) <==> c !in seg
  {
    if c in seg {
      var j :| 0 <= j < |seg| && seg[j] == c;
      assert (seg + [c])[j..j + 1] == [c];
      assert OccursAt(seg + [c], [c], j);
    } else {
      forall j: nat | j < |seg|
        ensures !OccursAt(seg + [c], [c], j)
      {
        assert (seg + [c])[j..j + 1] == [seg[j]];
      }
    }
  }
}
