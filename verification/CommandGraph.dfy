/**
 Flattening a command graph, cycles and all, into the numbered list that is sent
 to clients.
 */
module CommandGraph {
  import opened CommandNodes

  /** A child is shown unless it asks for more than the level given. */
  predicate Shown(c: Node, level: int)
    reads c
  {
    !(c.PermissionLevel > 0 && c.PermissionLevel > level)
  }

  /** The shown children, in order. */
  function ShownOf(cs: seq<Node>, level: int): (r: seq<Node>)
    reads cs
    ensures forall c | c in r :: c in cs && Shown(c, level)
    ensures forall c | c in cs && Shown(c, level) :: c in r
  {
    if cs == [] then []
    else ShownOf(cs[..|cs| - 1], level) + (if Shown(cs[|cs| - 1], level) then [cs[|cs| - 1]] else [])
  }

  /** `shown` are the first `n` of `cs` at the ascending positions `at`, which are all that the level reaches. */
  ghost predicate Picks(cs: seq<Node>, n: nat, level: int, shown: seq<Node>, at: seq<nat>)
    reads cs
    requires n <= |cs|
  {
    && |at| == |shown|
    && (forall j | 0 <= j < |at| :: at[j] < n && cs[at[j]] == shown[j])
    && (forall i, j | 0 <= i < j < |at| :: at[i] < at[j])
    && (forall k: nat | k < n :: k in at <==> cs[k].PermissionLevel <= 0 || cs[k].PermissionLevel <= level)
  }

  lemma PicksNext(cs: seq<Node>, n: nat, level: int, shown: seq<Node>, at: seq<nat>)
    requires n < |cs| && Picks(cs, n, level, shown, at)
    ensures if cs[n].PermissionLevel <= 0 || cs[n].PermissionLevel <= level
            then Picks(cs, n + 1, level, shown + [cs[n]], at + [n])
            else Picks(cs, n + 1, level, shown, at)
  {
    forall k | k in at ensures k < n {}
    forall k: nat | k < n + 1 ensures k in at + [n] <==> k in at || k == n {}
  }

  lemma NothingPicked(cs: seq<Node>, level: int)
    ensures ShownOf(cs[..0], level) == [] && Picks(cs, 0, level, [], [])
  {
  }

  lemma ShownNext(cs: seq<Node>, n: nat, level: int)
    requires n < |cs|
    ensures ShownOf(cs[..n + 1], level)
            == if cs[n].PermissionLevel <= 0 || cs[n].PermissionLevel <= level then ShownOf(cs[..n], level) + [cs[n]]
               else ShownOf(cs[..n], level)
  {
    assert cs[..n + 1][..n] == cs[..n];
  }

  /** The shown children are those whose level is not positive or is reached, in their order. */
  lemma {:induction false} ShownAre(cs: seq<Node>, n: nat, level: int) returns (at: seq<nat>)
    requires n <= |cs|
    ensures Picks(cs, n, level, ShownOf(cs[..n], level), at)
  {
    hide Picks, ShownOf;
    if n == 0 {
      NothingPicked(cs, level);
      at := [];
    } else {
      at := ShownAre(cs, n - 1, level);
      ShownNext(cs, n - 1, level);
      PicksNext(cs, n - 1, level, ShownOf(cs[..n - 1], level), at);
      if cs[n - 1].PermissionLevel <= 0 || cs[n - 1].PermissionLevel <= level {
        at := at + [n - 1];
      }
    }
  }

  /** Every shown child and redirect of the nodes of `s` is in `into`. */
  ghost predicate LeadsInto(all: set<Node>, s: set<Node>, into: set<Node>, level: int)
    reads all
    requires Closed(all) && s <= all
  {
    && (forall n, k | n in s && 0 <= k < |n.Children| && Shown(n.Children[k], level) :: n.Children[k] in into)
    && (forall n | n in s && n.Redirect != null :: n.Redirect in into)
  }

  lemma LeadsFurther(all: set<Node>, s: set<Node>, t: set<Node>, into: set<Node>, more: set<Node>, level: int)
    requires Closed(all) && s <= all && t <= all && into <= more
    requires LeadsInto(all, s, into, level) && LeadsInto(all, t, more, level)
    ensures LeadsInto(all, s + t, more, level)
  {
  }

  lemma LeadsFrom(all: set<Node>, n: Node, into: set<Node>, level: int)
    requires Closed(all) && n in all
    requires forall c | c in ShownOf(n.Children, level) :: c in into
    requires n.Redirect != null ==> n.Redirect in into
    ensures LeadsInto(all, {n}, into, level)
  {
  }

  lemma LeadsFromNone(all: set<Node>, into: set<Node>, level: int)
    requires Closed(all)
    ensures LeadsInto(all, {}, into, level)
  {
  }

  lemma StaysInside(all: set<Node>, bound: set<Node>, n: Node, level: int)
    requires Closed(all) && bound <= all && n in bound && LeadsInto(all, bound, bound, level)
    ensures forall c | c in ShownOf(n.Children, level) :: c in bound && c in all
    ensures n.Redirect != null ==> n.Redirect in bound && n.Redirect in all
  {
  }

  lemma InverseAppend(nodes: seq<Node>, indices: map<Node, nat>, n: Node)
    requires Inverse(nodes, indices) && n !in indices
    ensures Inverse(nodes + [n], indices[n := |nodes|])
  {
  }

  /** The shown children of a node, collected. */
  method CollectShown(n: Node, level: int) returns (children: seq<Node>)
    ensures children == ShownOf(n.Children, level)
  {
    children := [];
    for i := 0 to |n.Children|
      invariant children == ShownOf(n.Children[..i], level)
    {
      assert n.Children[..i + 1][..i] == n.Children[..i];
      if n.Children[i].PermissionLevel > 0 && n.Children[i].PermissionLevel > level {
        continue;
      }
      children := children + [n.Children[i]];
    }
    assert n.Children[..|n.Children|] == n.Children;
  }

  /** The list and the index are inverse to each other. */
  ghost predicate Inverse(nodes: seq<Node>, indices: map<Node, nat>) {
    && (forall i | 0 <= i < |nodes| :: nodes[i] in indices && indices[nodes[i]] == i)
    && (forall n | n in indices :: indices[n] < |nodes| && nodes[indices[n]] == n)
  }

  class GraphWalk {
    const Level: int
    var nodes: seq<Node>
    var indices: map<Node, nat>
    var filteredChildren: map<Node, seq<Node>>

    /** What is listed is numbered, belongs to the graph, and has its shown children recorded. */
    ghost predicate Valid(all: set<Node>)
      reads this, all
      requires Closed(all)
    {
      && indices.Keys <= all && filteredChildren.Keys == indices.Keys
      && Inverse(nodes, indices)
      && (forall n | n in indices :: filteredChildren[n] == ShownOf(n.Children, Level))
    }

    constructor (level: int)
      ensures Level == level && nodes == [] && indices == map[] && filteredChildren == map[]
    {
      Level, nodes, indices, filteredChildren := level, [], map[], map[];
    }

    /** Numbers a node and records its shown children, before visiting them. */
    method Enter(n: Node, ghost all: set<Node>) returns (children: seq<Node>)
      requires Closed(all) && n in all && Valid(all) && n !in indices
      modifies this
      ensures Valid(all) && indices.Keys <= all && nodes == old(nodes) + [n] && indices.Keys == old(indices).Keys + {n}
      ensures children == ShownOf(n.Children, Level)
    {
      hide Closed, Inverse, ShownOf;
      children := CollectShown(n, Level);
      InverseAppend(nodes, indices, n);
      indices := indices[n := |nodes|];
      nodes := nodes + [n];
      filteredChildren := filteredChildren[n := children];
    }

    /**
     Lists `n` and all it leads to that is not yet listed. Whatever is newly listed
     leads only to listed nodes, and lies in every set that `n` cannot leave.
     */
    method Walk(n: Node, ghost all: set<Node>, ghost bound: set<Node>)
      requires Closed(all) && n in all && Valid(all)
      requires bound <= all && n in bound && LeadsInto(all, bound, bound, Level)
      modifies this
      ensures Valid(all) && n in indices && indices.Keys <= all
      ensures old(nodes) <= nodes && old(indices).Keys <= indices.Keys
      ensures n !in old(indices) ==> old(nodes) + [n] <= nodes
      ensures LeadsInto(all, indices.Keys - old(indices).Keys, indices.Keys, Level)
      ensures indices.Keys - old(indices).Keys <= bound
      decreases all - indices.Keys
    {
      hide Closed, LeadsInto, ShownOf, GraphWalk.Valid;
      ghost var before := indices.Keys;
      LeadsFromNone(all, before, Level);
      ListedInGraph(this, all);
      if n in indices {
        assert indices.Keys - before == {};
        return;
      }
      StaysInside(all, bound, n, Level);
      var children := Enter(n, all);
      ghost var done: set<Node> := {};
      LeadsFromNone(all, indices.Keys, Level);
      for i := 0 to |children|
        invariant Closed(all) && Valid(all) && indices.Keys <= all && children == ShownOf(n.Children, Level)
        invariant old(nodes) + [n] <= nodes && n in indices && before <= indices.Keys
        invariant indices.Keys == before + {n} + done && n !in done && before !! done
        invariant LeadsInto(all, done, indices.Keys, Level) && done <= bound
        invariant forall k | 0 <= k < i :: children[k] in indices
      {
        ghost var listed := indices.Keys;
        Walk(children[i], all, bound);
        LeadsFurther(all, done, indices.Keys - listed, listed, indices.Keys, Level);
        done := done + (indices.Keys - listed);
      }
      if n.Redirect != null {
        ghost var listed := indices.Keys;
        Walk(n.Redirect, all, bound);
        LeadsFurther(all, done, indices.Keys - listed, listed, indices.Keys, Level);
        done := done + (indices.Keys - listed);
      }
      LeadsFrom(all, n, indices.Keys, Level);
      LeadsFurther(all, done, {n}, indices.Keys, indices.Keys, Level);
      assert indices.Keys - before == done + {n};
    }
  }

  lemma ListedInGraph(walk: GraphWalk, all: set<Node>)
    requires Closed(all) && walk.Valid(all)
    ensures walk.indices.Keys <= all
  {
  }

  lemma NothingListed(walk: GraphWalk, all: set<Node>)
    requires Closed(all) && walk.nodes == [] && walk.indices == map[] && walk.filteredChildren == map[]
    ensures walk.Valid(all) && walk.indices.Keys == {}
  {
  }

  // ----- reachable nodes

  /** One shown child or redirect away. */
  ghost predicate Hop(m: Node, n: Node, level: int)
    reads m, m.Children
  {
    || (exists k | 0 <= k < |m.Children| ::
         m.Children[k] == n && (n.PermissionLevel <= 0 || n.PermissionLevel <= level))
    || m.Redirect == n
  }

  /** The nodes of a graph at most `k` hops from the root. */
  ghost function Within(all: set<Node>, root: Node, level: int, k: nat): set<Node>
    requires Closed(all) && root in all
    reads all
    decreases k
  {
    if k == 0 then {root}
    else
      Within(all, root, level, k - 1) +
      set n | n in all && exists m | m in all && m in Within(all, root, level, k - 1) :: Hop(m, n, level)
  }

  ghost predicate IsReachable(all: set<Node>, root: Node, level: int, n: Node)
    requires Closed(all) && root in all
    reads all
  {
    exists k: nat :: n in Within(all, root, level, k)
  }

  ghost function Reachable(all: set<Node>, root: Node, level: int): set<Node>
    requires Closed(all) && root in all
    reads all
  {
    set n | n in all && IsReachable(all, root, level, n)
  }

  /** The reachable nodes lead nowhere else. */
  lemma ReachableIsClosed(all: set<Node>, root: Node, level: int)
    requires Closed(all) && root in all
    ensures root in Reachable(all, root, level) &&
            LeadsInto(all, Reachable(all, root, level), Reachable(all, root, level), level)
  {
    assert root in Within(all, root, level, 0);
    forall m, n | m in Reachable(all, root, level) && n in all && Hop(m, n, level)
      ensures n in Reachable(all, root, level)
    {
      var k: nat :| m in Within(all, root, level, k);
      assert n in Within(all, root, level, k + 1);
    }
    forall m, i | m in Reachable(all, root, level) && 0 <= i < |m.Children| && Shown(m.Children[i], level)
      ensures m.Children[i] in Reachable(all, root, level)
    {
      assert Hop(m, m.Children[i], level);
    }
    forall m | m in Reachable(all, root, level) && m.Redirect != null
      ensures m.Redirect in Reachable(all, root, level)
    {
      assert Hop(m, m.Redirect, level);
    }
  }

  /** And lie in every set with the root that leads nowhere else. */
  lemma {:induction false} WithinClosed(all: set<Node>, root: Node, level: int, k: nat, s: set<Node>)
    requires Closed(all) && root in all && s <= all && root in s && LeadsInto(all, s, s, level)
    ensures Within(all, root, level, k) <= s
  {
    if k == 0 {
    } else {
      WithinClosed(all, root, level, k - 1, s);
    }
  }

  /**
   Terminates on any graph, cyclic ones too. The list holds exactly the nodes reachable
   from the root by shown children and redirects, each once, and the index is its
   inverse; so every id a listed node refers to is defined.
   */
  method FlattenGraph(root: Node, level: int, ghost all: set<Node>)
    returns (nodes: seq<Node>, indices: map<Node, nat>, filteredChildren: map<Node, seq<Node>>)
    requires Closed(all) && root in all
    ensures |nodes| > 0 && nodes[0] == root && Inverse(nodes, indices)
    ensures indices.Keys == Reachable(all, root, level) && LeadsInto(all, indices.Keys, indices.Keys, level)
    ensures filteredChildren.Keys == indices.Keys
    ensures forall n | n in indices :: exists at :: Picks(n.Children, |n.Children|, level, filteredChildren[n], at)
  {
    hide Closed, LeadsInto, ShownOf, Within, Picks;
    var walk := new GraphWalk(level);
    ghost var none := walk.indices.Keys;
    NothingListed(walk, all);
    ReachableIsClosed(all, root, level);
    walk.Walk(root, all, Reachable(all, root, level));
    assert walk.indices.Keys - none == walk.indices.Keys;
    assert ([] + [root])[0] == root;
    forall n | n in Reachable(all, root, level) ensures n in walk.indices.Keys {
      var k: nat :| n in Within(all, root, level, k);
      WithinClosed(all, root, level, k, walk.indices.Keys);
    }
    forall n | n in walk.indices
      ensures exists at :: Picks(n.Children, |n.Children|, level, walk.filteredChildren[n], at)
    {
      var at := ShownAre(n.Children, |n.Children|, level);
      assert n.Children[..|n.Children|] == n.Children;
    }
    return walk.nodes, walk.indices, walk.filteredChildren;
  }
}
