/** The path-addressed tree of `pkg/node/class.go`: the arena of nodes as one object whose
    operations update it in place. */
module Node {
  import opened Strings
  import opened Arena
  import opened Insertion

  /** One step of Locate up from `cur` to its parent: the parent's lineage followed by the
      ids gathered so far with that of `cur` in front is what it was, and the path gains the
      parent's id and the separator in front. */
  lemma ClimbStep<T>(a: seq<Class<T>>, cur: nat, below: seq<string>, sep: string)
    requires Valid(a) && cur < |a| && a[cur].parent.Some?
    ensures var p := a[cur].parent.value;
      && Lineage(a, p) + ([a[cur].id] + below) == Lineage(a, cur) + below
      && Join([a[p].id] + ([a[cur].id] + below), sep) == a[p].id + sep + Join([a[cur].id] + below, sep)
  {
    var p := a[cur].parent.value;
    assert Lineage(a, cur) == Lineage(a, p) + [a[cur].id];
    JoinCons(a[p].id, [a[cur].id] + below, sep);
  }

  /** The arena, updated in place by the operations of `pkg/node/class.go`. */
  class Tree<T> {
    var nodes: seq<Class<T>>

    constructor ()
      ensures nodes == [] && Valid(nodes)
    {
      nodes := [];
    }

    /** `New`: a node with the given id, payload and parent link and no children. The link
        is not mirrored in the parent's children; AppendChild does that. */
    method New(id: string, d: Option<T>, p: Option<nat>) returns (n: nat)
      requires Valid(nodes)
      requires p.Some? ==> p.value < |nodes|
      modifies this
      ensures nodes == old(nodes) + [Class(id, d, [], p)]
      ensures Valid(nodes) && n == |old(nodes)| && Detached(nodes, n)
    {
      n := |nodes|;
      nodes := nodes + [Class(id, d, [], p)];
    }

    /** `AppendChild`: `c` becomes the last child of `n`, with `n` as its parent; the earlier
        children of `n` stay, in order, and nothing else changes. */
    method AppendChild(n: nat, c: nat)
      requires Valid(nodes) && n < c < |nodes| && Detached(nodes, c)
      modifies this
      ensures Valid(nodes)
      ensures nodes == old(nodes)[n := old(nodes[n]).(children := old(nodes[n].children) + [c])]
                                 [c := old(nodes[c]).(parent := Some(n))]
    {
      nodes := nodes[n := nodes[n].(children := nodes[n].children + [c])];
      nodes := nodes[c := nodes[c].(parent := Some(n))];
    }

    /** `setData`: an absent payload is always set; a present one is overwritten only when
        `replace` holds, and is otherwise kept, with AlreadyExists. */
    method SetData(n: nat, d: T, replace: bool) returns (r: Result<nat>)
      requires Valid(nodes) && n < |nodes|
      modifies this
      ensures Valid(nodes)
      ensures old(nodes[n].data).None? || replace ==>
                r == Success(n) && nodes == old(nodes)[n := old(nodes[n]).(data := Some(d))]
      ensures old(nodes[n].data).Some? && !replace ==> r == Failure(AlreadyExists) && nodes == old(nodes)
    {
      if nodes[n].data.Some? {
        if replace {
          nodes := nodes[n := nodes[n].(data := Some(d))];
          r := Success(n);
        } else {
          r := Failure(AlreadyExists);
        }
      } else {
        nodes := nodes[n := nodes[n].(data := Some(d))];
        r := Success(n);
      }
    }

    /** `GetChildById`: scan the children of `n` in order for the first one with id `id`. */
    method GetChildById(n: nat, id: string) returns (r: Option<nat>)
      requires Valid(nodes) && n < |nodes|
      ensures r == FirstChild(nodes, n, id)
      ensures r.Some? ==> exists k :: 0 <= k < |nodes[n].children| && nodes[n].children[k] == r.value
                            && nodes[r.value].id == id
                            && forall j :: 0 <= j < k ==> nodes[nodes[n].children[j]].id != id
      ensures r.None? <==> forall c :: c in nodes[n].children ==> nodes[c].id != id
    {
      var kids := nodes[n].children;
      var i := 0;
      while i < |kids|
        invariant i <= |kids|
        invariant forall j :: 0 <= j < i ==> nodes[kids[j]].id != id
      {
        if nodes[kids[i]].id == id {
          assert FirstWithId(nodes, kids, id) == i;
          return Some(kids[i]);
        }
        i := i + 1;
      }
      return None;
    }

    /** `Insert`: split `path` at `sep`; with one segment, set the payload of `n` when the
        segment is its id; with more, descend into the first child whose id is the second
        segment, creating it (without payload) when there is none, and insert the re-joined
        remaining segments there. The first segment is compared with an id only when it is
        the only one left. */
    method Insert(n: nat, path: string, sep: string, d: T, replace: bool) returns (r: Result<nat>)
      requires Valid(nodes) && n < |nodes| && |sep| > 0
      modifies this
      decreases |path|
      ensures Valid(nodes) && |Split(path, sep)| >= 1
      ensures Inserted(old(nodes), nodes, n, Split(path, sep), d, replace, r)
    {
      var lineage := Split(path, sep);
      SplitShape(path, sep);
      if |lineage| == 1 {
        ghost var s0 := nodes;
        if lineage[0] == nodes[n].id {
          r := SetData(n, d, replace);
        } else {
          r := Failure(BadPath);
        }
        InsertedLeaf(s0, nodes, n, lineage, d, replace, r);
        return;
      }

      SplitTail(path, sep);
      var subpath := Join(lineage[1..], sep);
      ghost var s0 := nodes;
      // the scan of the children is the one GetChildById performs
      var selected := GetChildById(n, lineage[1]);
      var child: nat;
      if selected.None? {
        child := New(lineage[1], None, Some(n));
        AppendChild(n, child);
        assert nodes == AttachNew(s0, n, lineage[1]);
      } else {
        child := selected.value;
      }
      ghost var s1 := nodes;
      r := Insert(child, subpath, sep, d, replace);
      InsertedStep(s0, s1, nodes, n, child, lineage, d, replace, r);
    }

    /** `Locate`: climb the parent links from `n`, putting each parent's id and `sep` in
        front of the path built so far; the result is the ids from the root down to `n`,
        joined by `sep`. */
    method Locate(n: nat, sep: string) returns (path: string)
      requires Valid(nodes) && n < |nodes|
      ensures path == Join(Lineage(nodes, n), sep)
    {
      var a := nodes;
      var cur: nat := n;
      path := a[n].id;
      ghost var below: seq<string> := [];
      while a[cur].parent.Some?
        invariant cur < |a|
        invariant Lineage(a, cur) + below == Lineage(a, n)
        invariant path == Join([a[cur].id] + below, sep)
        decreases cur
      {
        var p := a[cur].parent.value;
        ClimbStep(a, cur, below, sep);
        path := a[p].id + sep + path;
        below := [a[cur].id] + below;
        cur := p;
      }
    }
  }
}
