/** The nodes of the path-addressed tree of `pkg/node/class.go`. The Go nodes live in one
    arena, a sequence of node records: a node is an index into it, and its record holds the
    node's id, its optional payload, the indices of its children in order and its parent link. */
module Arena {

  datatype Option<T> = None | Some(value: T)

  /** The three sentinel errors of `pkg/node/error.go`. */
  datatype Error = BadPath | AlreadyExists | NotFound

  datatype Result<R> = Success(value: R) | Failure(error: Error)

  /** One node: the fields of Go's `Class[T]`, with children and parent as arena indices. */
  datatype Class<T> = Class(id: string, data: Option<T>, children: seq<nat>, parent: Option<nat>)

  /** Every child index names a node created after its parent whose parent link points back,
      and every parent link points to an older node, so following links always ends. */
  ghost predicate Valid<T>(a: seq<Class<T>>) {
    && (forall m, k :: 0 <= m < |a| && 0 <= k < |a[m].children| ==>
          m < a[m].children[k] < |a| && a[a[m].children[k]].parent == Some(m))
    && (forall c :: 0 <= c < |a| && a[c].parent.Some? ==> a[c].parent.value < c)
  }

  /** Node `c` stands in no children list. */
  ghost predicate Detached<T>(a: seq<Class<T>>, c: nat)
    requires Valid(a) && c < |a|
  {
    a[c].parent.None? || c !in a[a[c].parent.value].children
  }

  /** The position in `kids` of the first node whose id is `id`, or `|kids|` when none is. */
  function FirstWithId<T>(a: seq<Class<T>>, kids: seq<nat>, id: string): (k: nat)
    requires forall j :: 0 <= j < |kids| ==> kids[j] < |a|
    ensures k <= |kids|
    ensures forall j :: 0 <= j < k ==> a[kids[j]].id != id
    ensures k < |kids| ==> a[kids[k]].id == id
    decreases |kids|
  {
    if |kids| == 0 then 0
    else if a[kids[0]].id == id then 0
    else 1 + FirstWithId(a, kids[1..], id)
  }

  /** The first child of `n` whose id is `id`, if any. */
  function FirstChild<T>(a: seq<Class<T>>, n: nat, id: string): (r: Option<nat>)
    requires Valid(a) && n < |a|
    ensures r.Some? ==> n < r.value < |a| && a[r.value].id == id && r.value in a[n].children
    ensures r.Some? ==> r.value == a[n].children[FirstWithId(a, a[n].children, id)]
    ensures r.None? <==> forall c :: c in a[n].children ==> a[c].id != id
  {
    var k := FirstWithId(a, a[n].children, id);
    if k < |a[n].children| then Some(a[n].children[k]) else None
  }

  /** The node reached from `n` by descending, for each segment in turn, into the first
      child with that id, if every step finds one. */
  function Walk<T>(a: seq<Class<T>>, n: nat, segs: seq<string>): (r: Option<nat>)
    requires Valid(a) && n < |a|
    ensures r.Some? ==> r.value < |a|
    decreases |segs|
  {
    if |segs| == 0 then Some(n)
    else match FirstChild(a, n, segs[0])
      case None => None
      case Some(c) => Walk(a, c, segs[1..])
  }

  /** How many of `segs`, from the first, the descent from `n` through first-matching ids
      finds before it meets a segment that no child matches. */
  function Matched<T>(a: seq<Class<T>>, n: nat, segs: seq<string>): (k: nat)
    requires Valid(a) && n < |a|
    ensures k <= |segs|
    ensures k == |segs| <==> Walk(a, n, segs).Some?
    decreases |segs|
  {
    if |segs| == 0 then 0
    else match FirstChild(a, n, segs[0])
      case None => 0
      case Some(c) => 1 + Matched(a, c, segs[1..])
  }

  /** The node where that descent stops: it is reached through the matched segments, and
      when a segment is left over, no child of it has that segment as id. */
  function Deepest<T>(a: seq<Class<T>>, n: nat, segs: seq<string>): (s: nat)
    requires Valid(a) && n < |a|
    ensures s < |a| && Walk(a, n, segs[..Matched(a, n, segs)]) == Some(s)
    ensures Matched(a, n, segs) < |segs| ==> FirstChild(a, s, segs[Matched(a, n, segs)]).None?
    decreases |segs|
  {
    if |segs| == 0 then n
    else match FirstChild(a, n, segs[0])
      case None => n
      case Some(c) =>
        assert segs[..1 + Matched(a, c, segs[1..])][1..] == segs[1..][..Matched(a, c, segs[1..])];
        Deepest(a, c, segs[1..])
  }

  /** The ids on the chain of parent links from the root down to `n`. */
  function Lineage<T>(a: seq<Class<T>>, n: nat): (r: seq<string>)
    requires Valid(a) && n < |a|
    ensures |r| >= 1 && r[|r| - 1] == a[n].id
    decreases n
  {
    if a[n].parent.None? then [a[n].id] else Lineage(a, a[n].parent.value) + [a[n].id]
  }


  /** The node reached by descending through first-matching ids, as repeated GetChildById
      calls do, has as lineage that of the start followed by those ids. */
  lemma {:induction false} WalkLineage<T>(a: seq<Class<T>>, n: nat, segs: seq<string>, x: nat)
    requires Valid(a) && n < |a| && Walk(a, n, segs) == Some(x)
    ensures x < |a| && Lineage(a, x) == Lineage(a, n) + segs
    decreases |segs|
  {
    if |segs| > 0 {
      var c := FirstChild(a, n, segs[0]).value;
      ChildLineage(a, n, c);
      WalkLineage(a, c, segs[1..], x);
      assert segs == [segs[0]] + segs[1..];
    }
  }

  /** A child's lineage is its parent's followed by its own id. */
  lemma ChildLineage<T>(a: seq<Class<T>>, n: nat, c: nat)
    requires Valid(a) && n < |a| && c in a[n].children
    ensures c < |a| && a[c].parent == Some(n) && Lineage(a, c) == Lineage(a, n) + [a[c].id]
  {
    var k :| 0 <= k < |a[n].children| && a[n].children[k] == c;
  }

  /** The node at the top of the chain of parent links from `n`. */
  function Root<T>(a: seq<Class<T>>, n: nat): (r: nat)
    requires Valid(a) && n < |a|
    ensures r <= n && a[r].parent.None?
    ensures Lineage(a, r) == Lineage(a, n)[..1]
    decreases n
  {
    if a[n].parent.None? then n
    else
      var p := a[n].parent.value;
      assert Lineage(a, n)[..1] == Lineage(a, p)[..1];
      Root(a, p)
  }

  /** Every node on the chain of parent links from `n` stands in its parent's children list. */
  ghost predicate Attached<T>(a: seq<Class<T>>, n: nat)
    requires Valid(a) && n < |a|
    decreases n
  {
    a[n].parent.None? || (n in a[a[n].parent.value].children && Attached(a, a[n].parent.value))
  }
}
