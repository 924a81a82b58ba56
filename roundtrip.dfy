/** How the operations of `pkg/node/class.go` fit together: what Insert stores the corrected
    Search finds, what Locate prints it finds again, a second Insert without replacement is
    rejected, and, for Search as written, a tree on which it finds the wrong node. */
module RoundTrip {
  import opened Strings
  import opened Arena
  import opened Insertion
  import opened Lookup

  /** Searching from its root for the path Locate gives for an attached node finds a node
      with the same lineage, when every id is separable (so the path splits back into the
      ids) and the node's own id is not empty. */
  lemma LocateThenSearch<T>(a: seq<Class<T>>, x: nat, sep: string)
    requires Valid(a) && x < |a| && |sep| > 0 && Attached(a, x) && a[x].id != ""
    requires forall k :: 0 <= k < |Lineage(a, x)| ==> Separable(Lineage(a, x)[k], sep)
    ensures var r := SearchMatching(a, Root(a, x), Join(Lineage(a, x), sep), sep);
      r.Success? && Lineage(a, r.value) == Lineage(a, x)
  {
    var segs := Lineage(a, x);
    var root := Root(a, x);
    var path := Join(segs, sep);
    SplitJoin(segs, sep);
    AttachedAlong(a, x);
    MatchingComplete(a, root, path, sep, x);
    MatchingSound(a, root, path, sep);
    var y := SearchMatching(a, root, path, sep).value;
    AlongLineage(a, root, y, segs[1..]);
    assert segs == segs[..1] + segs[1..];
  }

  /** After a successful Insert of a path whose last segment is not empty, the corrected
      Search of the same path from the same node finds the node Insert returned. */
  lemma InsertThenSearch<T>(a: seq<Class<T>>, b: seq<Class<T>>, n: nat, path: string, sep: string,
                            d: T, replace: bool, r: Result<nat>)
    requires Valid(a) && Valid(b) && n < |a| && |sep| > 0 && |Split(path, sep)| >= 1
    requires Inserted(a, b, n, Split(path, sep), d, replace, r)
    requires r.Success? && Split(path, sep)[|Split(path, sep)| - 1] != ""
    ensures SearchMatching(b, n, path, sep) == Success(r.value)
  {
    WalkIsFound(b, n, path, sep);
  }

  /** After a successful Insert, the lineage of the node it returned is that of `n` followed
      by the segments after the first. So Locate of that node, from a root whose id is the
      first segment, gives back the inserted path. */
  lemma InsertThenLocate<T>(a: seq<Class<T>>, b: seq<Class<T>>, n: nat, path: string, sep: string,
                            d: T, replace: bool, r: Result<nat>)
    requires Valid(a) && Valid(b) && n < |a| && |sep| > 0 && |Split(path, sep)| >= 1
    requires Inserted(a, b, n, Split(path, sep), d, replace, r) && r.Success?
    ensures n < |b| && r.value < |b|
    ensures Lineage(b, r.value) == Lineage(b, n) + Split(path, sep)[1..]
    ensures a[n].parent.None? && Split(path, sep)[0] == a[n].id ==> Join(Lineage(b, r.value), sep) == path
  {
    var segs := Split(path, sep);
    WalkLineage(b, n, segs[1..], r.value);
    if a[n].parent.None? && segs[0] == a[n].id {
      assert Lineage(b, n) == [segs[0]];
      assert [segs[0]] + segs[1..] == segs;
      JoinSplit(path, sep);
    }
  }

  /** Inserting again with replacement at a path where an Insert just succeeded succeeds at
      the same node, which now holds the new payload, and changes nothing else. */
  lemma InsertTwiceReplaces<T>(a: seq<Class<T>>, b: seq<Class<T>>, c: seq<Class<T>>, n: nat,
                               segs: seq<string>, d: T, d': T, replace: bool, r: Result<nat>, r': Result<nat>)
    requires Valid(a) && Valid(b) && Valid(c) && n < |a| && |segs| >= 1
    requires Inserted(a, b, n, segs, d, replace, r) && r.Success?
    requires Inserted(b, c, n, segs, d', true, r')
    ensures r' == r && |c| == |b| && c[r.value].data == Some(d')
    ensures forall m :: 0 <= m < |b| && m != r.value ==> c[m] == b[m]
    ensures c == b[r.value := b[r.value].(data := Some(d'))]
  {
    ReplaceExisting(b, c, n, segs, d', r', r.value);
  }

  /** Insert with replacement at a path whose target exists succeeds at that target, sets
      its payload and changes nothing else. */
  lemma ReplaceExisting<T>(b: seq<Class<T>>, c: seq<Class<T>>, n: nat, segs: seq<string>, d': T,
                           r': Result<nat>, t: nat)
    requires Valid(b) && Valid(c) && n < |b| && |segs| >= 1
    requires Walk(b, n, segs[1..]) == Some(t) && (|segs| == 1 ==> segs[0] == b[n].id)
    requires Inserted(b, c, n, segs, d', true, r')
    ensures r' == Success(t) && |c| == |b| && c[t].data == Some(d')
    ensures forall m :: 0 <= m < |b| && m != t ==> c[m] == b[m]
    ensures c == b[t := b[t].(data := Some(d'))]
  {
    var tail := segs[1..];
    assert Matched(b, n, tail) == |tail| && tail[|tail|..] == [];
    NoChain(b, c, Deepest(b, n, tail));
    WalkUnchanged(b, c, n, tail);
    forall m | 0 <= m < |b| && m != t
      ensures c[m] == b[m]
    {
      assert c[m].data == b[m].data;
    }
    OnlyPayload(b, c, t, d');
  }

  /** Arenas that agree on every node but `t`, and on the id, parent link and children of
      `t`, differ at most in the payload of `t`. */
  lemma OnlyPayload<T>(b: seq<Class<T>>, c: seq<Class<T>>, t: nat, d': T)
    requires t < |b| == |c| && c[t].data == Some(d')
    requires c[t].id == b[t].id && c[t].parent == b[t].parent && c[t].children == b[t].children
    requires forall m :: 0 <= m < |b| && m != t ==> c[m] == b[m]
    ensures c == b[t := b[t].(data := Some(d'))]
  {
    assert c[t] == b[t].(data := Some(d'));
  }

  /** Inserting again, without replacement, at a path where an Insert just succeeded is
      rejected with AlreadyExists and changes nothing. */
  lemma InsertTwiceRejects<T>(a: seq<Class<T>>, b: seq<Class<T>>, c: seq<Class<T>>, n: nat,
                              segs: seq<string>, d: T, d': T, replace: bool, r: Result<nat>, r': Result<nat>)
    requires Valid(a) && Valid(b) && Valid(c) && n < |a| && |segs| >= 1
    requires Inserted(a, b, n, segs, d, replace, r) && r.Success?
    requires Inserted(b, c, n, segs, d', false, r')
    ensures r' == Failure(AlreadyExists) && c == b
  {
  }

  /** A tree built as the paths ABC, ABC.DEF, ABC.DEF.GHI and ABC.MNO.GHI are inserted. */
  function Sample(): (a: seq<Class<int>>)
    ensures Valid(a) && |a| == 5
  {
    [ Class("ABC", Some(0), [1, 3], None),
      Class("DEF", Some(1), [2], Some(0)),
      Class("GHI", Some(2), [], Some(1)),
      Class("MNO", None, [4], Some(0)),
      Class("GHI", Some(3), [], Some(3)) ]
  }

  /** The path ABC.MNO.GHI splits into its three ids. */
  lemma SampleSplit()
    ensures Split("ABC.MNO.GHI", ".") == ["ABC", "MNO", "GHI"]
  {
    var segs := ["ABC", "MNO", "GHI"];
    assert Join(segs, ".") == "ABC.MNO.GHI";
    SeparableOneChar("ABC", '.');
    SeparableOneChar("MNO", '.');
    SeparableOneChar("GHI", '.');
    SplitJoin(segs, ".");
  }

  /** Search as written, asked for the path that Locate prints for node 4 (ABC.MNO.GHI),
      returns node 2, whose path is ABC.DEF.GHI and whose payload is not the one inserted
      at ABC.MNO.GHI: it never compares MNO with an id. The corrected Search returns node 4. */
  lemma SearchMissesLocated(a: seq<Class<int>>)
    requires a == Sample()
    ensures Valid(a) && Attached(a, 4) && Root(a, 4) == 0
    ensures Join(Lineage(a, 4), ".") == "ABC.MNO.GHI"
    ensures Search(a, 0, "ABC.MNO.GHI", ".") == Success(2)
    ensures Lineage(a, 2) == ["ABC", "DEF", "GHI"] && Lineage(a, 4) == ["ABC", "MNO", "GHI"]
    ensures a[2].data == Some(2) && a[4].data == Some(3)
    ensures SearchMatching(a, 0, "ABC.MNO.GHI", ".") == Success(4)
  {
    SampleLineages(a);
    assert Join(["ABC", "MNO", "GHI"], ".") == "ABC.MNO.GHI";
    assert Attached(a, 3);
    SampleSplit();
    SearchAtDepthTwo(a);
    assert Walk(a, 0, ["MNO", "GHI"]) == Some(4) by {
      assert FirstChild(a, 0, "MNO") == Some(3);
      assert FirstChild(a, 3, "GHI") == Some(4);
    }
    assert ["ABC", "MNO", "GHI"][1..] == ["MNO", "GHI"];
    WalkIsFound(a, 0, "ABC.MNO.GHI", ".");
  }

  /** The lineages of the two GHI nodes of the sample tree. */
  lemma SampleLineages(a: seq<Class<int>>)
    requires a == Sample()
    ensures Lineage(a, 2) == ["ABC", "DEF", "GHI"] && Lineage(a, 4) == ["ABC", "MNO", "GHI"]
  {
    assert Lineage(a, 0) == ["ABC"];
    assert Lineage(a, 1) == ["ABC"] + ["DEF"];
    assert Lineage(a, 3) == ["ABC"] + ["MNO"];
  }

  /** On the sample tree, Search as written returns the first GHI two levels below the root. */
  lemma SearchAtDepthTwo(a: seq<Class<int>>)
    requires a == Sample()
    ensures Search(a, 0, "ABC.MNO.GHI", ".") == Success(2)
  {
    SampleSplit();
    SearchIsFirstAtDepth(a, 0, "ABC.MNO.GHI", ".");
    SampleLevel(a);
    assert FirstWithId(a, [2, 4], "GHI") == 0;
  }

  /** The two nodes two levels below the root of the sample tree, in depth-first order. */
  lemma SampleLevel(a: seq<Class<int>>)
    requires a == Sample()
    ensures Level(a, 0, 2) == [2, 4]
  {
    assert LevelFrom(a, 1, 0, 0) == [2] + LevelFrom(a, 1, 0, 1) == [2];
    assert LevelFrom(a, 3, 0, 0) == [4] + LevelFrom(a, 3, 0, 1) == [4];
    assert LevelFrom(a, 0, 1, 0) == Level(a, 1, 1) + LevelFrom(a, 0, 1, 1);
    assert LevelFrom(a, 0, 1, 1) == Level(a, 3, 1) + LevelFrom(a, 0, 1, 2);
  }
}
