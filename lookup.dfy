/** `Search` of `pkg/node/class.go`, as written and as evidently intended, over arena values,
    with what each one finds. */
module Lookup {
  import opened Strings
  import opened Arena

  /** `x` is `k` child steps below `n`: reached from `n` by following children lists. */
  ghost predicate Below<T>(a: seq<Class<T>>, n: nat, x: nat, k: nat)
    requires Valid(a) && n < |a|
    decreases k
  {
    if k == 0 then x == n
    else exists j :: 0 <= j < |a[n].children| && Below(a, a[n].children[j], x, k - 1)
  }

  /** `x` is reached from `n` by descending, for each of `ids` in turn, into some child with that id. */
  ghost predicate Along<T>(a: seq<Class<T>>, n: nat, x: nat, ids: seq<string>)
    requires Valid(a) && n < |a|
    decreases |ids|
  {
    if |ids| == 0 then x == n
    else exists j :: 0 <= j < |a[n].children| && a[a[n].children[j]].id == ids[0]
                     && Along(a, a[n].children[j], x, ids[1..])
  }

  /** The nodes `k` child steps below `n`, in the depth-first order in which Search visits them. */
  function Level<T>(a: seq<Class<T>>, n: nat, k: nat): (r: seq<nat>)
    requires Valid(a) && n < |a|
    ensures forall j :: 0 <= j < |r| ==> r[j] < |a|
    decreases k, 0
  {
    if k == 0 then [n] else LevelFrom(a, n, k - 1, 0)
  }

  /** The nodes `k` child steps below the children of `n` from position `i` on. */
  function LevelFrom<T>(a: seq<Class<T>>, n: nat, k: nat, i: nat): (r: seq<nat>)
    requires Valid(a) && n < |a| && i <= |a[n].children|
    ensures forall j :: 0 <= j < |r| ==> r[j] < |a|
    decreases k, 1, |a[n].children| - i
  {
    if i == |a[n].children| then []
    else Level(a, a[n].children[i], k) + LevelFrom(a, n, k, i + 1)
  }

  /** The first node of `ns` whose id is `id`; never one with the empty id. */
  function Find<T>(a: seq<Class<T>>, ns: seq<nat>, id: string): (r: Result<nat>)
    requires forall j :: 0 <= j < |ns| ==> ns[j] < |a|
    ensures r.Success? ==> r.value in ns && a[r.value].id == id != ""
    ensures r.Failure? ==> r.error == NotFound && (id == "" || forall x :: x in ns ==> a[x].id != id)
  {
    var k := FirstWithId(a, ns, id);
    if id != "" && k < |ns| then Success(ns[k]) else Failure(NotFound)
  }

  /** `Search` as written: an empty path is BadPath; a single segment finds `n` when it is
      the id of `n`; with more segments the re-joined remaining ones are searched for in
      each child in turn, the first success is the result, and every error of a child,
      BadPath included, only moves on to the next child. The segment a child is entered
      for is never compared with that child's id. */
  function Search<T>(a: seq<Class<T>>, n: nat, path: string, sep: string): (r: Result<nat>)
    requires Valid(a) && n < |a| && |sep| > 0
    ensures r.Success? ==> r.value < |a|
    ensures r.Failure? ==> r.error == if |path| == 0 then BadPath else NotFound
    ensures |path| == 0 <==> r == Failure(BadPath)
    decreases |path|, 0
  {
    if |path| == 0 then Failure(BadPath)
    else
      var lineage := Split(path, sep);
      SplitShape(path, sep);
      if |lineage| == 1 then
        if lineage[0] == a[n].id then Success(n) else Failure(NotFound)
      else
        SplitTail(path, sep);
        SearchKids(a, n, Join(lineage[1..], sep), sep, 0)
  }

  /** The loop of Search over the children of `n`, from position `i` on. */
  function SearchKids<T>(a: seq<Class<T>>, n: nat, sub: string, sep: string, i: nat): (r: Result<nat>)
    requires Valid(a) && n < |a| && |sep| > 0 && i <= |a[n].children|
    ensures r.Success? ==> r.value < |a|
    ensures r.Failure? ==> r.error == NotFound
    decreases |sub|, 1, |a[n].children| - i
  {
    if i == |a[n].children| then Failure(NotFound)
    else match Search(a, a[n].children[i], sub, sep)
      case Success(x) => Success(x)
      case Failure(_) => SearchKids(a, n, sub, sep, i + 1)
  }

  /** `Search` as evidently intended: the same recursion, but a child is searched only when
      its id is the segment it is entered for. */
  function SearchMatching<T>(a: seq<Class<T>>, n: nat, path: string, sep: string): (r: Result<nat>)
    requires Valid(a) && n < |a| && |sep| > 0
    ensures r.Success? ==> r.value < |a|
    ensures r.Failure? ==> r.error == if |path| == 0 then BadPath else NotFound
    ensures |path| == 0 <==> r == Failure(BadPath)
    decreases |path|, 0
  {
    if |path| == 0 then Failure(BadPath)
    else
      var lineage := Split(path, sep);
      SplitShape(path, sep);
      if |lineage| == 1 then
        if lineage[0] == a[n].id then Success(n) else Failure(NotFound)
      else
        SplitTail(path, sep);
        SearchMatchingKids(a, n, lineage[1], Join(lineage[1..], sep), sep, 0)
  }

  /** The loop of SearchMatching over the children of `n` with id `id`, from position `i` on. */
  function SearchMatchingKids<T>(a: seq<Class<T>>, n: nat, id: string, sub: string, sep: string, i: nat)
    : (r: Result<nat>)
    requires Valid(a) && n < |a| && |sep| > 0 && i <= |a[n].children|
    ensures r.Success? ==> r.value < |a|
    ensures r.Failure? ==> r.error == NotFound
    decreases |sub|, 1, |a[n].children| - i
  {
    if i == |a[n].children| then Failure(NotFound)
    else if a[a[n].children[i]].id != id then SearchMatchingKids(a, n, id, sub, sep, i + 1)
    else match SearchMatching(a, a[n].children[i], sub, sep)
      case Success(x) => Success(x)
      case Failure(_) => SearchMatchingKids(a, n, id, sub, sep, i + 1)
  }

  /** Searching a concatenation finds in the first part when it can, else in the second. */
  lemma FindConcat<T>(a: seq<Class<T>>, xs: seq<nat>, ys: seq<nat>, id: string)
    requires forall j :: 0 <= j < |xs| ==> xs[j] < |a|
    requires forall j :: 0 <= j < |ys| ==> ys[j] < |a|
    ensures forall j :: 0 <= j < |xs + ys| ==> (xs + ys)[j] < |a|
    ensures Find(a, xs + ys, id) == if Find(a, xs, id).Success? then Find(a, xs, id) else Find(a, ys, id)
  {
    var k, kx, ky := FirstWithId(a, xs + ys, id), FirstWithId(a, xs, id), FirstWithId(a, ys, id);
    if kx < |xs| {
      assert (xs + ys)[kx] == xs[kx];
    } else if ky < |ys| {
      assert (xs + ys)[|xs| + ky] == ys[ky];
    }
  }

  /** As written, Search finds the first node, in depth-first order, as many child steps
      below `n` as the path has segments after the first, whose id is the last segment
      (never one with the empty id). */
  lemma {:induction false} SearchIsFirstAtDepth<T>(a: seq<Class<T>>, n: nat, path: string, sep: string)
    requires Valid(a) && n < |a| && |sep| > 0 && |path| > 0
    ensures |Split(path, sep)| >= 1
    ensures var segs := Split(path, sep);
      Search(a, n, path, sep) == Find(a, Level(a, n, |segs| - 1), segs[|segs| - 1])
    decreases |path|, 0
  {
    var segs := Split(path, sep);
    SplitShape(path, sep);
    if |segs| > 1 {
      SearchUnfold(a, n, path, sep);
      var sub := Join(segs[1..], sep);
      SearchKidsAtDepth(a, n, sub, sep, 0);
      assert Level(a, n, |segs| - 1) == LevelFrom(a, n, |segs| - 2, 0);
    } else {
      assert segs == [path];
      assert Level(a, n, 0) == [n];
    }
  }

  /** One level of Search as written with more than one segment: the loop over the
      children for the re-joined remaining segments, which split back into exactly those. */
  lemma SearchUnfold<T>(a: seq<Class<T>>, n: nat, path: string, sep: string)
    requires Valid(a) && n < |a| && |sep| > 0 && |path| > 0 && |Split(path, sep)| > 1
    ensures var segs := Split(path, sep); var sub := Join(segs[1..], sep); var tail := Split(sub, sep);
      && |sub| < |path| && tail == segs[1..]
      && |tail| == |segs| - 1 && tail[|tail| - 1] == segs[|segs| - 1]
      && Search(a, n, path, sep) == SearchKids(a, n, sub, sep, 0)
  {
    SplitTail(path, sep);
  }

  /** The loop of Search from child `i` on finds the first node, in depth-first order, at the
      depth of the sub-path below those children whose id is its last segment. */
  lemma {:induction false} SearchKidsAtDepth<T>(a: seq<Class<T>>, n: nat, sub: string, sep: string, i: nat)
    requires Valid(a) && n < |a| && |sep| > 0 && i <= |a[n].children|
    ensures |Split(sub, sep)| >= 1
    ensures var segs := Split(sub, sep);
      SearchKids(a, n, sub, sep, i) == Find(a, LevelFrom(a, n, |segs| - 1, i), segs[|segs| - 1])
    decreases |sub|, 1, |a[n].children| - i
  {
    var segs := Split(sub, sep);
    SplitShape(sub, sep);
    var k := |segs| - 1;
    if i < |a[n].children| {
      var c := a[n].children[i];
      SearchKidsAtDepth(a, n, sub, sep, i + 1);
      FindConcat(a, Level(a, c, k), LevelFrom(a, n, k, i + 1), segs[k]);
      if |sub| > 0 {
        SearchIsFirstAtDepth(a, c, sub, sep);
      }
    }
  }

  /** Level holds exactly the nodes `k` child steps below `n`. */
  lemma {:induction false} InLevel<T>(a: seq<Class<T>>, n: nat, k: nat, x: nat)
    requires Valid(a) && n < |a|
    ensures x in Level(a, n, k) <==> Below(a, n, x, k)
    decreases k, 0
  {
    if k > 0 {
      InLevelFrom(a, n, k - 1, 0, x);
    }
  }

  /** LevelFrom holds exactly the nodes `k` child steps below a child of `n` at position `i` or later. */
  lemma {:induction false} InLevelFrom<T>(a: seq<Class<T>>, n: nat, k: nat, i: nat, x: nat)
    requires Valid(a) && n < |a| && i <= |a[n].children|
    ensures x in LevelFrom(a, n, k, i) <==>
              exists j :: i <= j < |a[n].children| && Below(a, a[n].children[j], x, k)
    decreases k, 1, |a[n].children| - i
  {
    if i < |a[n].children| {
      InLevel(a, a[n].children[i], k, x);
      InLevelFrom(a, n, k, i + 1, x);
    }
  }

  /** As written, Search compares only the last segment of the path with an id: it finds a
      node exactly as deep below `n` as the path has segments after the first whose id is
      the last segment, and fails only when there is none (or the last segment is empty). */
  lemma SearchComparesLastOnly<T>(a: seq<Class<T>>, n: nat, path: string, sep: string)
    requires Valid(a) && n < |a| && |sep| > 0 && |path| > 0
    ensures |Split(path, sep)| >= 1
    ensures var segs := Split(path, sep); var r := Search(a, n, path, sep);
      && (r.Success? ==> Below(a, n, r.value, |segs| - 1) && a[r.value].id == segs[|segs| - 1])
      && (r.Failure? && segs[|segs| - 1] != "" ==>
            forall x: nat :: Below(a, n, x, |segs| - 1) ==> x < |a| && a[x].id != segs[|segs| - 1])
  {
    var segs := Split(path, sep);
    SearchIsFirstAtDepth(a, n, path, sep);
    var r := Search(a, n, path, sep);
    var k := |segs| - 1;
    if r.Success? {
      InLevel(a, n, k, r.value);
    }
    forall x: nat | Below(a, n, x, k)
      ensures x in Level(a, n, k)
    {
      InLevel(a, n, k, x);
    }
  }

  /** The corrected Search finds only nodes it can reach by descending through children whose
      ids are the segments after the first, in order; with a single segment, only `n` itself
      and only when the segment is its id. The last segment of a found path is never empty. */
  lemma {:induction false} MatchingSound<T>(a: seq<Class<T>>, n: nat, path: string, sep: string)
    requires Valid(a) && n < |a| && |sep| > 0
    ensures |Split(path, sep)| >= 1
    ensures var segs := Split(path, sep); var r := SearchMatching(a, n, path, sep);
      r.Success? ==> && Along(a, n, r.value, segs[1..]) && segs[|segs| - 1] != ""
                     && (|segs| == 1 ==> segs[0] == a[n].id)
    decreases |path|, 0
  {
    var segs := Split(path, sep);
    SplitShape(path, sep);
    if |segs| > 1 {
      MatchingUnfold(a, n, path, sep);
      var sub := Join(segs[1..], sep);
      MatchingKidsSound(a, n, segs[1], sub, sep, 0);
    }
  }

  /** The loop of the corrected Search succeeds only through a child, at position `i` or
      later, whose id is `id` and below which the remaining segments lead to the result. */
  lemma {:induction false} MatchingKidsSound<T>(a: seq<Class<T>>, n: nat, id: string, sub: string, sep: string, i: nat)
    requires Valid(a) && n < |a| && |sep| > 0 && i <= |a[n].children|
    ensures |Split(sub, sep)| >= 1
    ensures var segs := Split(sub, sep); var r := SearchMatchingKids(a, n, id, sub, sep, i);
      r.Success? ==> && segs[|segs| - 1] != ""
                     && exists j :: i <= j < |a[n].children| && a[a[n].children[j]].id == id
                                   && Along(a, a[n].children[j], r.value, segs[1..])
    decreases |sub|, 1, |a[n].children| - i
  {
    SplitShape(sub, sep);
    if i < |a[n].children| {
      MatchingKidsSound(a, n, id, sub, sep, i + 1);
      if a[a[n].children[i]].id == id {
        MatchingSound(a, a[n].children[i], sub, sep);
      }
    }
  }

  /** The corrected Search finds a node whenever some node is reached from `n` through
      children whose ids are the segments after the first and the last segment is not
      empty; with a single segment, when that segment is the id of `n`. */
  lemma {:induction false} MatchingComplete<T>(a: seq<Class<T>>, n: nat, path: string, sep: string, x: nat)
    requires Valid(a) && n < |a| && |sep| > 0
    requires |Split(path, sep)| >= 1
    requires var segs := Split(path, sep);
      && Along(a, n, x, segs[1..]) && segs[|segs| - 1] != ""
      && (|segs| == 1 ==> segs[0] == a[n].id)
    ensures SearchMatching(a, n, path, sep).Success?
    decreases |path|, 0
  {
    var segs := Split(path, sep);
    if |segs| > 1 {
      MatchingUnfold(a, n, path, sep);
      var sub := Join(segs[1..], sep);
      MatchingChildComplete(a, n, sub, sep, x);
    } else {
      SplitShape(path, sep);
    }
  }

  /** The loop of the corrected Search over all children of `n` succeeds when the segments
      of `sub` lead from `n` to a node. */
  lemma {:induction false} MatchingChildComplete<T>(a: seq<Class<T>>, n: nat, sub: string, sep: string, x: nat)
    requires Valid(a) && n < |a| && |sep| > 0
    requires |Split(sub, sep)| >= 1
    requires var segs := Split(sub, sep); Along(a, n, x, segs) && segs[|segs| - 1] != ""
    ensures SearchMatchingKids(a, n, Split(sub, sep)[0], sub, sep, 0).Success?
    decreases |sub|, 2
  {
    var segs := Split(sub, sep);
    var j :| 0 <= j < |a[n].children| && a[a[n].children[j]].id == segs[0]
             && Along(a, a[n].children[j], x, segs[1..]);
    MatchingKidsComplete(a, n, segs[0], sub, sep, 0, j, x);
  }

  /** One level of the corrected Search with more than one segment: the loop over the
      children, for the second segment and the re-joined remaining ones, which split back
      into exactly those segments. */
  lemma MatchingUnfold<T>(a: seq<Class<T>>, n: nat, path: string, sep: string)
    requires Valid(a) && n < |a| && |sep| > 0 && |Split(path, sep)| > 1
    ensures var segs := Split(path, sep); var sub := Join(segs[1..], sep); var tail := Split(sub, sep);
      && |sub| < |path| && tail == segs[1..]
      && tail[0] == segs[1] && tail[|tail| - 1] == segs[|segs| - 1] && tail[1..] == segs[2..]
      && SearchMatching(a, n, path, sep) == SearchMatchingKids(a, n, segs[1], sub, sep, 0)
  {
    SplitShape(path, sep);
    SplitTail(path, sep);
  }

  /** The loop of the corrected Search, from position `i` on, succeeds when a child at
      position `j >= i` has id `id` (the first segment of `sub`) and leads on to a node. */
  lemma {:induction false} MatchingKidsComplete<T>(a: seq<Class<T>>, n: nat, id: string, sub: string, sep: string,
                                                   i: nat, j: nat, x: nat)
    requires Valid(a) && n < |a| && |sep| > 0 && i <= j < |a[n].children|
    requires |Split(sub, sep)| >= 1
    requires var segs := Split(sub, sep);
      && segs[0] == id == a[a[n].children[j]].id
      && Along(a, a[n].children[j], x, segs[1..]) && segs[|segs| - 1] != ""
    ensures SearchMatchingKids(a, n, id, sub, sep, i).Success?
    decreases |sub|, 1, |a[n].children| - i
  {
    if i == j {
      MatchingComplete(a, a[n].children[i], sub, sep, x);
    } else {
      MatchingKidsComplete(a, n, id, sub, sep, i + 1, j, x);
    }
  }


  /** Where following first-matching ids from `n` reaches a node, the corrected Search
      finds exactly that node (the last segment being non-empty). */
  lemma {:induction false} WalkIsFound<T>(a: seq<Class<T>>, n: nat, path: string, sep: string)
    requires Valid(a) && n < |a| && |sep| > 0
    requires |Split(path, sep)| >= 1
    requires var segs := Split(path, sep);
      && Walk(a, n, segs[1..]).Some? && segs[|segs| - 1] != ""
      && (|segs| == 1 ==> segs[0] == a[n].id)
    ensures SearchMatching(a, n, path, sep) == Success(Walk(a, n, Split(path, sep)[1..]).value)
    decreases |path|, 0
  {
    var segs := Split(path, sep);
    if |segs| > 1 {
      MatchingUnfold(a, n, path, sep);
      var sub := Join(segs[1..], sep);
      assert segs[1..][1..] == segs[2..];
      WalkKidsFound(a, n, segs[1], sub, sep, 0);
    } else {
      SplitShape(path, sep);
    }
  }

  /** The loop of the corrected Search, from any position up to that of the first child with
      id `id`, finds what following first-matching ids finds from that child. */
  lemma {:induction false} WalkKidsFound<T>(a: seq<Class<T>>, n: nat, id: string, sub: string, sep: string, i: nat)
    requires Valid(a) && n < |a| && |sep| > 0 && i <= FirstWithId(a, a[n].children, id) < |a[n].children|
    requires |Split(sub, sep)| >= 1
    requires var segs := Split(sub, sep);
      && segs[0] == id && segs[|segs| - 1] != ""
      && Walk(a, a[n].children[FirstWithId(a, a[n].children, id)], segs[1..]).Some?
    ensures SearchMatchingKids(a, n, id, sub, sep, i)
              == Success(Walk(a, a[n].children[FirstWithId(a, a[n].children, id)], Split(sub, sep)[1..]).value)
    decreases |sub|, 1, |a[n].children| - i
  {
    var c := a[n].children[i];
    if i < FirstWithId(a, a[n].children, id) {
      WalkKidsFound(a, n, id, sub, sep, i + 1);
    } else {
      WalkIsFound(a, c, sub, sep);
    }
  }

  /** Descending through children whose ids are `ids` extends the lineage by exactly `ids`. */
  lemma {:induction false} AlongLineage<T>(a: seq<Class<T>>, n: nat, x: nat, ids: seq<string>)
    requires Valid(a) && n < |a| && Along(a, n, x, ids)
    ensures x < |a| && Lineage(a, x) == Lineage(a, n) + ids
    decreases |ids|
  {
    if |ids| > 0 {
      var j :| 0 <= j < |a[n].children| && a[a[n].children[j]].id == ids[0]
               && Along(a, a[n].children[j], x, ids[1..]);
      var c := a[n].children[j];
      AlongLineage(a, c, x, ids[1..]);
      assert Lineage(a, c) == Lineage(a, n) + [ids[0]];
      assert ids == [ids[0]] + ids[1..];
    }
  }

  /** One more step down, to a child of the node reached, extends the ids by that child's. */
  lemma {:induction false} AlongExtend<T>(a: seq<Class<T>>, n: nat, p: nat, ids: seq<string>, x: nat)
    requires Valid(a) && n < |a| && p < |a| && Along(a, n, p, ids) && x in a[p].children
    ensures Along(a, n, x, ids + [a[x].id])
    decreases |ids|
  {
    var j :| 0 <= j < |a[p].children| && a[p].children[j] == x;
    if |ids| == 0 {
      assert Along(a, x, x, []);
      assert (ids + [a[x].id])[1..] == [];
    } else {
      var i :| 0 <= i < |a[n].children| && a[a[n].children[i]].id == ids[0]
               && Along(a, a[n].children[i], p, ids[1..]);
      AlongExtend(a, a[n].children[i], p, ids[1..], x);
      assert (ids + [a[x].id])[1..] == ids[1..] + [a[x].id];
    }
  }

  /** An attached node is reached from its root through children whose ids are its lineage
      after the root's own id. */
  lemma {:induction false} AttachedAlong<T>(a: seq<Class<T>>, x: nat)
    requires Valid(a) && x < |a| && Attached(a, x)
    ensures Lineage(a, Root(a, x)) == Lineage(a, x)[..1]
    ensures Along(a, Root(a, x), x, Lineage(a, x)[1..])
    decreases x
  {
    if a[x].parent.Some? {
      var p := a[x].parent.value;
      AttachedAlong(a, p);
      AlongExtend(a, Root(a, p), p, Lineage(a, p)[1..], x);
      assert Lineage(a, x)[1..] == Lineage(a, p)[1..] + [a[x].id];
      assert Lineage(a, x)[..1] == Lineage(a, p)[..1];
    }
  }
}
