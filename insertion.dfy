/** What Insert of `pkg/node/class.go` does to an arena, stated over arena values, and the
    lemmas that carry it through one level of the recursion. */
module Insertion {
  import opened Arena

  /** `after` is `before`, or `before` with one more node whose id no node of `before` has. */
  ghost predicate AddsFreshSibling<T>(a: seq<Class<T>>, before: seq<nat>, after: seq<nat>) {
    || after == before
    || (&& |after| == |before| + 1 && after[..|before|] == before && after[|before|] < |a|
        && forall j :: 0 <= j < |before| ==> before[j] < |a| && a[before[j]].id != a[after[|before|]].id)
  }

  /** Arena `b` grows out of arena `a` as Insert from node `n` lets it: nodes are only added,
      ids and parent links stay, nodes older than `n` keep their children, and every node
      gains at most one child, never one whose id its children already have. */
  ghost predicate Grown<T>(a: seq<Class<T>>, b: seq<Class<T>>, n: nat) {
    && |a| <= |b|
    && (forall m :: 0 <= m < |a| ==> b[m].id == a[m].id && b[m].parent == a[m].parent)
    && (forall m :: 0 <= m < |a| && m < n ==> b[m].children == a[m].children)
    && (forall m :: 0 <= m < |a| ==> AddsFreshSibling(b, a[m].children, b[m].children))
  }

  /** Payloads of `b` are those of `a`, except at `target`; nodes new in `b` carry none. */
  ghost predicate PayloadsKept<T>(a: seq<Class<T>>, b: seq<Class<T>>, target: Option<nat>) {
    forall m :: 0 <= m < |b| && target != Some(m) ==>
      b[m].data == if m < |a| then a[m].data else None
  }

  /** The node that Insert of segments `segs` from `n` would target already exists and holds a payload. */
  ghost predicate Occupied<T>(a: seq<Class<T>>, n: nat, segs: seq<string>)
    requires Valid(a) && n < |a|
  {
    Walk(a, n, segs).Some? && a[Walk(a, n, segs).value].data.Some?
  }

  /** First-match lookups only look at the ids of the children, so two arenas that agree
      on those agree on the lookup. */
  lemma FirstChildSameIds<T>(a: seq<Class<T>>, b: seq<Class<T>>, n: nat, id: string)
    requires Valid(a) && Valid(b) && n < |a| && n < |b|
    requires b[n].children == a[n].children
    requires forall c :: c in a[n].children ==> b[c].id == a[c].id
    ensures FirstChild(b, n, id) == FirstChild(a, n, id)
  {
  }

  /** Two arenas of the same size that agree on every id and every children list agree on
      every descent through first-matching ids. */
  lemma {:induction false} WalkUnchanged<T>(a: seq<Class<T>>, b: seq<Class<T>>, n: nat, segs: seq<string>)
    requires Valid(a) && Valid(b) && n < |a| && |a| == |b|
    requires forall m :: 0 <= m < |a| ==> b[m].id == a[m].id && b[m].children == a[m].children
    ensures Walk(b, n, segs) == Walk(a, n, segs)
    decreases |segs|
  {
    if |segs| > 0 {
      FirstChildSameIds(a, b, n, segs[0]);
      if FirstChild(a, n, segs[0]).Some? {
        WalkUnchanged(a, b, FirstChild(a, n, segs[0]).value, segs[1..]);
      }
    }
  }

  /** The first `Grown` step changes only the children of `n` and the second starts below
      `n`; together they are one `Grown` step from `n`. */
  lemma GrownCompose<T>(a: seq<Class<T>>, b: seq<Class<T>>, c: seq<Class<T>>, n: nat, child: nat)
    requires Grown(a, b, n) && Grown(b, c, child) && n < child
    requires forall m :: 0 <= m < |a| && m != n ==> b[m].children == a[m].children
    requires n < |a|
    ensures Grown(a, c, n)
  {
    forall m | 0 <= m < |a|
      ensures AddsFreshSibling(c, a[m].children, c[m].children)
    {
      if m == n {
        assert c[m].children == b[m].children;
        var before, after := a[m].children, b[m].children;
        if after != before {
          forall j | 0 <= j < |before|
            ensures before[j] < |c| && c[before[j]].id != c[after[|before|]].id
          {
            assert b[before[j]].id != b[after[|before|]].id;
          }
        }
      } else {
        assert b[m].children == a[m].children;
      }
    }
  }

  /** The arena after `New(id, None, Some(n))` and `AppendChild` of the new node to `n`. */
  function AttachNew<T>(a: seq<Class<T>>, n: nat, id: string): (b: seq<Class<T>>)
    requires n < |a|
  {
    (a + [Class(id, None, [], Some(n))])[n := a[n].(children := a[n].children + [|a|])]
  }

  /** Attaching a fresh child to `n` when none of its children has that id keeps the arena
      valid, is a `Grown` step that touches only `n`, adds no payload, and makes the new node
      the first child of `n` with that id. */
  lemma AttachNewFacts<T>(a: seq<Class<T>>, n: nat, id: string)
    requires Valid(a) && n < |a| && FirstChild(a, n, id).None?
    requires Valid(AttachNew(a, n, id))
    ensures var b := AttachNew(a, n, id);
      && Grown(a, b, n) && PayloadsKept(a, b, None)
      && (forall m :: 0 <= m < |a| && m != n ==> b[m].children == a[m].children)
      && b[|a|].children == [] && FirstChild(b, n, id) == Some(|a|)
  {
    var b := AttachNew(a, n, id);
    forall j | 0 <= j < |a[n].children|
      ensures b[a[n].children[j]].id != id
    {
      assert a[n].children[j] in a[n].children;
    }
    assert b[n].children == a[n].children + [|a|];
    assert AddsFreshSibling(b, a[n].children, b[n].children);
    assert FirstWithId(b, b[n].children, id) == |a[n].children|;
  }

  /** Payload changes compose: a step that sets none followed by one that sets at most `t`. */
  lemma PayloadsCompose<T>(a: seq<Class<T>>, b: seq<Class<T>>, c: seq<Class<T>>, t: Option<nat>)
    requires PayloadsKept(a, b, None) && PayloadsKept(b, c, t) && |a| <= |b| <= |c|
    ensures PayloadsKept(a, c, t)
  {
    forall m | 0 <= m < |c| && t != Some(m)
      ensures c[m].data == if m < |a| then a[m].data else None
    {
      if m < |b| {
        assert c[m].data == b[m].data;
      }
    }
  }

  /** `b` is `a` with a chain of new nodes, whose ids are `ids` in order, hung below node `s`:
      `s` gains the first new node as its last child, each new node has the next one as its
      only child and the last has none, and the nodes of `a` keep their ids, their parent
      links and, except for `s`, their children. */
  ghost predicate ChainAdded<T>(a: seq<Class<T>>, b: seq<Class<T>>, s: nat, ids: seq<string>) {
    && s < |a| && |b| == |a| + |ids|
    && (forall m :: 0 <= m < |a| ==> b[m].id == a[m].id && b[m].parent == a[m].parent)
    && (forall m :: 0 <= m < |a| && m != s ==> b[m].children == a[m].children)
    && b[s].children == a[s].children + (if |ids| == 0 then [] else [|a|])
    && (forall m :: |a| <= m < |b| ==>
          && b[m].id == ids[m - |a|]
          && b[m].parent == Some(if m == |a| then s else m - 1)
          && b[m].children == if m + 1 < |b| then [m + 1] else [])
  }

  /** An empty chain adds no node and changes no children list. */
  lemma NoChain<T>(a: seq<Class<T>>, b: seq<Class<T>>, s: nat)
    requires ChainAdded(a, b, s, [])
    ensures |b| == |a|
    ensures forall m :: 0 <= m < |a| ==>
              b[m].id == a[m].id && b[m].parent == a[m].parent && b[m].children == a[m].children
  {
    assert a[s].children + [] == a[s].children;
  }

  /** Attaching a fresh child to `n` and then hanging a chain below that child hangs one
      longer chain below `n`. */
  lemma ChainCompose<T>(a: seq<Class<T>>, b: seq<Class<T>>, c: seq<Class<T>>, n: nat, id: string, ids: seq<string>)
    requires n < |a| && b == AttachNew(a, n, id) && ChainAdded(b, c, |a|, ids)
    ensures ChainAdded(a, c, n, [id] + ids)
  {
    forall m | |a| <= m < |c|
      ensures c[m].id == ([id] + ids)[m - |a|]
    {
      if m > |a| {
        assert ([id] + ids)[m - |a|] == ids[m - |b|];
      }
    }
  }

  /** The recursive case of Insert hangs the chain where the descent from `n` stops: below
      the found child it is the chain of the recursive call, and below a created child it is
      that child followed by the chain of the recursive call. */
  lemma StepChain<T>(a: seq<Class<T>>, b: seq<Class<T>>, c: seq<Class<T>>, n: nat, child: nat, segs: seq<string>)
    requires Valid(a) && Valid(b) && n < |a| && |segs| > 1
    requires FirstChild(a, n, segs[1]).None? ==> b == AttachNew(a, n, segs[1]) && child == |a|
    requires FirstChild(a, n, segs[1]).Some? ==> b == a && child == FirstChild(a, n, segs[1]).value
    requires child < |b|
    requires ChainAdded(b, c, Deepest(b, child, segs[1..][1..]), segs[1..][1..][Matched(b, child, segs[1..][1..])..])
    ensures ChainAdded(a, c, Deepest(a, n, segs[1..]), segs[1..][Matched(a, n, segs[1..])..])
  {
    if FirstChild(a, n, segs[1]).None? {
      ChainCreated(a, b, c, n, segs[1], segs[1..][1..]);
      assert segs[1..] == [segs[1]] + segs[1..][1..];
    } else {
      ChainFound(a, c, n, segs[1..]);
    }
  }

  /** Below a created child the chain is that child followed by the chain of the recursive call. */
  lemma ChainCreated<T>(a: seq<Class<T>>, b: seq<Class<T>>, c: seq<Class<T>>, n: nat, id: string, rest: seq<string>)
    requires Valid(a) && Valid(b) && n < |a| && FirstChild(a, n, id).None? && b == AttachNew(a, n, id)
    requires ChainAdded(b, c, Deepest(b, |a|, rest), rest[Matched(b, |a|, rest)..])
    ensures ChainAdded(a, c, Deepest(a, n, [id] + rest), ([id] + rest)[Matched(a, n, [id] + rest)..])
  {
    assert b[|a|].children == [];
    assert Deepest(b, |a|, rest) == |a| && Matched(b, |a|, rest) == 0;
    assert ([id] + rest)[0] == id;
    assert Deepest(a, n, [id] + rest) == n && Matched(a, n, [id] + rest) == 0;
    ChainCompose(a, b, c, n, id, rest);
  }

  /** Below a found child the chain is the chain of the recursive call. */
  lemma ChainFound<T>(a: seq<Class<T>>, c: seq<Class<T>>, n: nat, segs: seq<string>)
    requires Valid(a) && n < |a| && |segs| > 0 && FirstChild(a, n, segs[0]).Some?
    requires var child := FirstChild(a, n, segs[0]).value;
      ChainAdded(a, c, Deepest(a, child, segs[1..]), segs[1..][Matched(a, child, segs[1..])..])
    ensures ChainAdded(a, c, Deepest(a, n, segs), segs[Matched(a, n, segs)..])
  {
    var k := Matched(a, FirstChild(a, n, segs[0]).value, segs[1..]);
    assert segs[1 + k..] == segs[1..][k..];
  }

  /** What Insert of segments `segs` from node `n` with payload `d` does to arena `a`,
      leaving arena `b` and result `r`. */
  ghost predicate Inserted<T>(a: seq<Class<T>>, b: seq<Class<T>>, n: nat, segs: seq<string>,
                              d: T, replace: bool, r: Result<nat>)
    requires Valid(a) && Valid(b) && n < |a| && |segs| >= 1
  {
    // The arena only grows, at most one fresh-id child per node, and no payload but the
    // target's changes.
    && Grown(a, b, n)
    && PayloadsKept(a, b, if r.Success? then Some(r.value) else None)
    // The new nodes are one chain, for the segments the descent through first-matching ids
    // does not find, hung below the node where it stops; no other node changes children.
    && ChainAdded(a, b, Deepest(a, n, segs[1..]), segs[1..][Matched(a, n, segs[1..])..])
    // Nodes are created exactly when the target is missing.
    && (|b| > |a| <==> Walk(a, n, segs[1..]).None?)
    // On success the target is reached from `n` through first-matching ids and holds `d`.
    && (r.Success? ==> r.value < |b| && b[r.value].data == Some(d) && Walk(b, n, segs[1..]) == Some(r.value))
    // The two errors, exactly when they occur; both leave the arena as it was.
    && (r.Failure? ==> (r.error == BadPath || r.error == AlreadyExists) && b == a)
    && (r == Failure(BadPath) <==> |segs| == 1 && segs[0] != a[n].id)
    && (r == Failure(AlreadyExists) <==>
          !replace && (|segs| > 1 || segs[0] == a[n].id) && Occupied(a, n, segs[1..]))
  }

  /** The base case of Insert: a single segment, compared with the id of `n`. */
  lemma InsertedLeaf<T>(a: seq<Class<T>>, b: seq<Class<T>>, n: nat, segs: seq<string>,
                        d: T, replace: bool, r: Result<nat>)
    requires Valid(a) && Valid(b) && n < |a| && |segs| == 1
    requires segs[0] != a[n].id ==> r == Failure(BadPath) && b == a
    requires segs[0] == a[n].id && (a[n].data.None? || replace) ==>
               r == Success(n) && b == a[n := a[n].(data := Some(d))]
    requires segs[0] == a[n].id && a[n].data.Some? && !replace ==> r == Failure(AlreadyExists) && b == a
    ensures Inserted(a, b, n, segs, d, replace, r)
  {
    assert segs[1..] == [];
    LeafChain(a, b, n, segs);
    if r.Success? {
      assert forall m :: 0 <= m < |a| ==> b[m].children == a[m].children;
    }
  }

  /** With a single segment no node is created, and only the payload of `n` may change. */
  lemma LeafChain<T>(a: seq<Class<T>>, b: seq<Class<T>>, n: nat, segs: seq<string>)
    requires Valid(a) && n < |a| && |segs| == 1
    requires b == a || exists d :: b == a[n := a[n].(data := d)]
    ensures ChainAdded(a, b, Deepest(a, n, segs[1..]), segs[1..][Matched(a, n, segs[1..])..])
  {
    assert segs[1..] == [];
  }

  /** The recursive case of Insert: from `n` it descends into `child`, the first child with
      id `segs[1]`, or a fresh one attached for it, and inserts `segs[1..]` there. */
  lemma InsertedStep<T>(a: seq<Class<T>>, b: seq<Class<T>>, c: seq<Class<T>>, n: nat, child: nat,
                        segs: seq<string>, d: T, replace: bool, r: Result<nat>)
    requires Valid(a) && Valid(b) && Valid(c) && n < |a| && |segs| > 1
    requires FirstChild(a, n, segs[1]).None? ==> b == AttachNew(a, n, segs[1]) && child == |a|
    requires FirstChild(a, n, segs[1]).Some? ==> b == a && child == FirstChild(a, n, segs[1]).value
    requires child < |b| && Inserted(b, c, child, segs[1..], d, replace, r)
    ensures Inserted(a, c, n, segs, d, replace, r)
  {
    StepWalks(a, b, c, n, child, segs);
    StepChain(a, b, c, n, child, segs);
    if FirstChild(a, n, segs[1]).None? {
      StepCreated(a, b, c, n, child, segs, d, replace, r);
    } else {
      assert Grown(a, c, n);
    }
  }

  /** The recursive case of Insert when the child had to be created. */
  lemma StepCreated<T>(a: seq<Class<T>>, b: seq<Class<T>>, c: seq<Class<T>>, n: nat, child: nat,
                       segs: seq<string>, d: T, replace: bool, r: Result<nat>)
    requires Valid(a) && Valid(b) && Valid(c) && n < |a| && |segs| > 1
    requires FirstChild(a, n, segs[1]).None? && b == AttachNew(a, n, segs[1]) && child == |a|
    requires Inserted(b, c, child, segs[1..], d, replace, r)
    requires Walk(c, n, segs[1..]) == Walk(c, child, segs[1..][1..])
    requires Walk(a, n, segs[1..]).None? && b[child].data.None?
    requires Walk(b, child, segs[1..][1..]) == if |segs| == 2 then Some(child) else None
    requires ChainAdded(a, c, Deepest(a, n, segs[1..]), segs[1..][Matched(a, n, segs[1..])..])
    ensures Inserted(a, c, n, segs, d, replace, r)
  {
    AttachNewFacts(a, n, segs[1]);
    GrownCompose(a, b, c, n, child);
    PayloadsCompose(a, b, c, if r.Success? then Some(r.value) else None);
  }

  /** The walks of the recursive case: from `n` the walk goes through `child`, and from a
      freshly attached `child` only the empty walk arrives anywhere. */
  lemma StepWalks<T>(a: seq<Class<T>>, b: seq<Class<T>>, c: seq<Class<T>>, n: nat, child: nat, segs: seq<string>)
    requires Valid(a) && Valid(b) && Valid(c) && n < |a| && |segs| > 1
    requires FirstChild(a, n, segs[1]).None? ==> b == AttachNew(a, n, segs[1]) && child == |a|
    requires FirstChild(a, n, segs[1]).Some? ==> b == a && child == FirstChild(a, n, segs[1]).value
    requires child < |b| && Grown(b, c, child)
    ensures Walk(c, n, segs[1..]) == Walk(c, child, segs[1..][1..])
    ensures FirstChild(a, n, segs[1]).Some? ==> Walk(a, n, segs[1..]) == Walk(b, child, segs[1..][1..])
    ensures FirstChild(a, n, segs[1]).None? ==>
              && Walk(a, n, segs[1..]).None? && b[child].data.None?
              && Walk(b, child, segs[1..][1..]) == if |segs| == 2 then Some(child) else None
  {
    var created := FirstChild(a, n, segs[1]).None?;
    if created {
      AttachNewFacts(a, n, segs[1]);
      assert b[child].children == [];
      assert b[child].data.None?;
    }
    WalkThroughChild(b, c, n, child, segs[1..]);
  }

  /** After the recursive call, the walk from `n` still goes through `child`. */
  lemma WalkThroughChild<T>(b: seq<Class<T>>, c: seq<Class<T>>, n: nat, child: nat, segs: seq<string>)
    requires Valid(b) && Valid(c) && n < child < |b| && |segs| > 0
    requires FirstChild(b, n, segs[0]) == Some(child) && Grown(b, c, child)
    ensures Walk(c, n, segs) == Walk(c, child, segs[1..])
  {
    assert b[n].children == c[n].children;
    FirstChildSameIds(b, c, n, segs[0]);
  }

}
