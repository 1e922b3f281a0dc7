/**
 Registration: every leaf shape of a builder becomes a path in the dispatcher's tree,
 sharing the nodes it has in common with the paths already there.
 */
module CommandBuilder {
  import opened Wrappers
  import opened CommandNodes
  import opened LeafShapes
  import opened CommandTrie

  /** The first child with a key. */
  function ChildOf(cs: seq<Node>, k: Key): (c: Node?)
    ensures c != null ==> c in cs && KeyOf(c) == k
    ensures c == null ==> forall i | 0 <= i < |cs| :: KeyOf(cs[i]) != k
  {
    if cs == [] then null else if KeyOf(cs[0]) == k then cs[0] else ChildOf(cs[1..], k)
  }

  /** Follow a path of keys down the children, taking the first match each time. */
  function Lookup(n: Node, path: seq<Key>, nodes: set<Node>): Node?
    requires n in nodes && Closed(nodes)
    reads nodes
    decreases |path|
  {
    if path == [] then n
    else
      var c := ChildOf(n.Children, path[0]);
      if c == null then null else Lookup(c, path[1..], nodes)
  }

  /** At each path, a node; a path's node is a child of the node one key up. */
  ghost predicate IsChildAt(at: map<seq<Key>, Node>, kids: map<Node, seq<Node>>, p: seq<Key>)
    requires p in at && p != []
  {
    var up := p[..|p| - 1];
    && up in at && at[up] in kids && at[p] in kids[at[up]]
    && at[p].Kind != RootNode && KeyOf(at[p]) == p[|p| - 1]
  }

  /** And every child is the node one key down. */
  ghost predicate ChildrenListed(at: map<seq<Key>, Node>, kids: map<Node, seq<Node>>, p: seq<Key>)
    requires p in at && at[p] in kids
  {
    forall i | 0 <= i < |kids[at[p]]| ::
      var q := p + [KeyOf(kids[at[p]][i])];
      q in at && at[q] == kids[at[p]][i]
  }

  ghost predicate Among(kids: map<Node, seq<Node>>, n: Node)
    requires n in kids
  {
    && (forall i | 0 <= i < |kids[n]| :: kids[n][i] in kids)
    && (n.Kind == ArgumentNode <==> n.Parser != null)
  }

  /** The children lists are a tree with one node per path of keys. */
  ghost predicate IsTree(at: map<seq<Key>, Node>, kids: map<Node, seq<Node>>) {
    && [] in at
    && (forall p {:trigger at[p]} | p in at :: at[p] in kids)
    && (forall n {:trigger kids[n]} | n in kids :: Among(kids, n))
    && (forall p {:trigger IsChildAt(at, kids, p)} | p in at && p != [] :: IsChildAt(at, kids, p))
    && (forall p {:trigger ChildrenListed(at, kids, p)} | p in at :: ChildrenListed(at, kids, p))
    && (forall p, q {:trigger at[p], at[q]} | p in at && q in at && at[p] == at[q] :: p == q)
  }

  lemma NextIsChild(at: map<seq<Key>, Node>, kids: map<Node, seq<Node>>, p: seq<Key>, k: Key)
    requires IsTree(at, kids) && p in at && p + [k] in at
    ensures at[p + [k]] in kids[at[p]] && KeyOf(at[p + [k]]) == k && at[p + [k]].Kind != RootNode
  {
    assert IsChildAt(at, kids, p + [k]);
    assert (p + [k])[..|p|] == p;
  }

  /** The child with a key is the node one key down, or none. */
  lemma ChildIsNext(at: map<seq<Key>, Node>, kids: map<Node, seq<Node>>, p: seq<Key>, k: Key)
    requires IsTree(at, kids) && p in at
    ensures ChildOf(kids[at[p]], k) == if p + [k] in at then at[p + [k]] else null
  {
    if p + [k] in at { NextIsChild(at, kids, p, k); }
    var c := ChildOf(kids[at[p]], k);
    if c != null {
      assert ChildrenListed(at, kids, p);
      var i :| 0 <= i < |kids[at[p]]| && kids[at[p]][i] == c;
    }
  }

  lemma {:induction false} PrefixPresent(at: map<seq<Key>, Node>, kids: map<Node, seq<Node>>, p: seq<Key>,
                                         more: seq<Key>)
    requires IsTree(at, kids) && p + more in at
    ensures p in at
    decreases |more|
  {
    if more == [] {
      assert p + more == p;
    } else {
      var q := p + more;
      assert IsChildAt(at, kids, q);
      assert q[..|q| - 1] == p + more[..|more| - 1];
      PrefixPresent(at, kids, p, more[..|more| - 1]);
    }
  }

  /** A node with a new key makes the tree one path larger. */
  lemma TreeGrows(at: map<seq<Key>, Node>, kids: map<Node, seq<Node>>, up: seq<Key>, n: Node)
    requires IsTree(at, kids) && up in at && up + [KeyOf(n)] !in at && n !in kids && n.Kind != RootNode
    requires n.Kind == ArgumentNode <==> n.Parser != null
    ensures IsTree(at[up + [KeyOf(n)] := n], kids[at[up] := kids[at[up]] + [n]][n := []])
  {
    hide IsChildAt, ChildrenListed;
    forall m | m in kids
      ensures Among(kids[at[up] := kids[at[up]] + [n]][n := []], m)
    {
      assert Among(kids, m);
    }
    var key := up + [KeyOf(n)];
    var at', kids' := at[key := n], kids[at[up] := kids[at[up]] + [n]][n := []];
    assert key[..|key| - 1] == up;
    Members(at, kids);
    forall p {:trigger IsChildAt(at', kids', p)} | p in at' && p != []
      ensures IsChildAt(at', kids', p)
    {
      StillChild(at, kids, up, n, p);
    }
    forall p {:trigger ChildrenListed(at', kids', p)} | p in at'
      ensures ChildrenListed(at', kids', p)
    {
      StillListed(at, kids, up, n, p);
    }
    forall p, q | p in at' && q in at' && at'[p] == at'[q]
      ensures p == q
    {
      if p != key && q != key { OnePath(at, kids, p, q); }
    }
  }

  lemma Members(at: map<seq<Key>, Node>, kids: map<Node, seq<Node>>)
    requires IsTree(at, kids)
    ensures forall p | p in at :: at[p] in kids
    ensures [] in at
  {
  }

  lemma StillChild(at: map<seq<Key>, Node>, kids: map<Node, seq<Node>>, up: seq<Key>, n: Node, p: seq<Key>)
    requires IsTree(at, kids) && up in at && up + [KeyOf(n)] !in at && n !in kids && n.Kind != RootNode
    requires p != [] && (p in at || p == up + [KeyOf(n)])
    ensures IsChildAt(at[up + [KeyOf(n)] := n], kids[at[up] := kids[at[up]] + [n]][n := []], p)
  {
    var key := up + [KeyOf(n)];
    assert key[..|key| - 1] == up;
    if p != key { assert IsChildAt(at, kids, p); }
  }

  lemma StillListed(at: map<seq<Key>, Node>, kids: map<Node, seq<Node>>, up: seq<Key>, n: Node, p: seq<Key>)
    requires IsTree(at, kids) && up in at && up + [KeyOf(n)] !in at && n !in kids && n.Kind != RootNode
    requires p in at || p == up + [KeyOf(n)]
    ensures var at', kids' := at[up + [KeyOf(n)] := n], kids[at[up] := kids[at[up]] + [n]][n := []];
            at'[p] in kids' && ChildrenListed(at', kids', p)
  {
    if p != up + [KeyOf(n)] { assert ChildrenListed(at, kids, p); }
  }

  lemma OnePath(at: map<seq<Key>, Node>, kids: map<Node, seq<Node>>, p: seq<Key>, q: seq<Key>)
    requires IsTree(at, kids) && p in at && q in at && at[p] == at[q]
    ensures p == q
  {
  }

  class Dispatcher {
    const Root: Node
    /** The node at each path of keys, and every node's children. */
    ghost var At: map<seq<Key>, Node>
    ghost var Kids: map<Node, seq<Node>>

    ghost predicate Valid()
      reads this, Kids.Keys
    {
      && IsTree(At, Kids)
      && At[[]] == Root
      && (forall n | n in Kids :: n.Children == Kids[n])
      && (forall n | n in Kids && n.Redirect != null :: n.Redirect in Kids)
    }

    lemma IsClosed()
      requires Valid()
      ensures Closed(Kids.Keys)
    {
      forall n | n in Kids
        ensures Among(Kids, n)
      {
        assert Kids[n] == n.Children;
      }
    }

    constructor ()
      ensures Valid() && fresh(Kids.Keys) && At == map[[] := Root]
      ensures Root.Run == None
    {
      var root := new Node(RootNode, "", null);
      Root := root;
      At := map[[] := root];
      Kids := map[root := []];
    }

    /** Looking a path up from the root finds the node at that path, or nothing where there is none. */
    lemma {:induction false} LookupFinds(from: seq<Key>, path: seq<Key>)
      requires Valid() && from in At
      ensures Closed(Kids.Keys) && At[from] in Kids
      ensures Lookup(At[from], path, Kids.Keys) == if from + path in At then At[from + path] else null
      decreases |path|
    {
      hide IsTree, Closed;
      Members(At, Kids);
      IsClosed();
      if path == [] {
        assert from + path == from;
      } else {
        var k := path[0];
        ChildIsNext(At, Kids, from, k);
        assert from + path == from + [k] + path[1..];
        if from + [k] in At {
          LookupFinds(from + [k], path[1..]);
        } else if from + path in At {
          PrefixPresent(At, Kids, from + [k], path[1..]);
        }
      }
    }

    ghost function Trie(): (t: Trie)
      requires Valid()
      reads this, Kids.Keys
      ensures t.Keys == At.Keys
    {
      map p | p in At :: InfoOf(At[p])
    }

    ghost predicate Grown(was: map<seq<Key>, Node>, was': map<Node, seq<Node>>, p: seq<Key>, n: Node)
      reads this
    {
      && p in At && At[p] == n && n in Kids
      && At == was[p := n] && (p in was ==> was[p] == n)
      && was'.Keys <= Kids.Keys
    }

    method Append(parent: Node, n: Node, ghost up: seq<Key>)
      requires Valid() && up in At && At[up] == parent && up + [KeyOf(n)] !in At
      requires n !in Kids && n.Kind != RootNode && n.Children == [] && (n.Kind == ArgumentNode <==> n.Parser != null)
      requires n.Redirect == null || n.Redirect in Kids
      modifies this, parent`Children
      ensures Valid() && At == old(At)[up + [KeyOf(n)] := n] && Kids.Keys == old(Kids.Keys) + {n}
    {
      hide IsTree;
      Members(At, Kids);
      TreeGrows(At, Kids, up, n);
      parent.Children := parent.Children + [n];
      At := At[up + [KeyOf(n)] := n];
      Kids := Kids[parent := Kids[parent] + [n]][n := []];
    }

    /** Append a new child to a node that has none with its key. */
    method AddChild(parent: Node, n: Node, ghost up: seq<Key>)
      requires Valid() && up in At && At[up] == parent && up + [KeyOf(n)] !in At
      requires n !in Kids && n.Kind != RootNode && n.Children == [] && (n.Kind == ArgumentNode <==> n.Parser != null)
      requires n.Redirect == null || n.Redirect in Kids
      modifies this, parent`Children
      ensures Valid() && Grown(old(At), old(Kids), up + [KeyOf(n)], n) && Kids.Keys == old(Kids.Keys) + {n}
      ensures Trie() == old(Trie())[up + [KeyOf(n)] := InfoOf(n)]
    {
      hide Dispatcher.Valid;
      EachInKids();
      Append(parent, n, up);
      EachInKids();
      assert forall p | p in old(At) :: InfoOf(At[p]) == old(InfoOf(At[p]));
    }

    lemma EachInKids()
      requires Valid()
      ensures forall p | p in At :: At[p] in Kids
    {
    }

    /** Bind a literal to a name. */
    method Bind(c: Node, bindKey: string, ghost p: seq<Key>)
      requires Valid() && p in At && At[p] == c && c in Kids
      modifies c`BindKey
      ensures Valid() && Trie() == old(Trie())[p := InfoOf(c)] && InfoOf(c) == old(InfoOf(c)).(bindKey := bindKey)
    {
      hide IsTree;
      Members(At, Kids);
      forall q | q in At && At[q] == c ensures q == p { OnePath(At, Kids, p, q); }
      c.BindKey := bindKey;
    }

    lemma NoRootBelow(p: seq<Key>)
      requires Valid() && p in At
      ensures forall i | 0 <= i < |At[p].Children| :: At[p].Children[i].Kind != RootNode && At[p].Children[i] in Kids
    {
      forall i | 0 <= i < |At[p].Children|
        ensures At[p].Children[i].Kind != RootNode && At[p].Children[i] in Kids
      {
        assert ChildrenListed(At, Kids, p);
        var q := p + [KeyOf(At[p].Children[i])];
        assert IsChildAt(At, Kids, q);
        assert q[..|q| - 1] == p;
      }
    }

    /** The child of the node at a path with a key is the one at the longer path. */
    method Match(parent: Node, key: Key, ghost up: seq<Key>) returns (c: Node?)
      requires Valid() && up in At && At[up] == parent
      ensures c == if up + [key] in At then At[up + [key]] else null
      ensures c != null ==> c in Kids && c.Kind != RootNode && KeyOf(c) == key
      ensures Find(Trie(), up + [key]) == if c == null then None else Some(InfoOf(c))
      ensures c != null ==> Grown(At, Kids, up + [key], c) && Trie()[up + [key] := InfoOf(c)] == Trie()
    {
      hide IsTree;
      Members(At, Kids);
      NoRootBelow(up);
      ChildIsNext(At, Kids, up, key);
      for i := 0 to |parent.Children|
        invariant forall k | 0 <= k < i :: KeyOf(parent.Children[k]) != key
      {
        c := parent.Children[i];
        assert KeyOf(c) == key <==>
               (if key.LiteralKey? then c.Kind == LiteralNode else c.Kind == ArgumentNode) && c.Name == key.name;
        if (if key.LiteralKey? then c.Kind == LiteralNode else c.Kind == ArgumentNode) && c.Name == key.name {
          Earliest(parent.Children, i, key);
          return;
        }
      }
      Nowhere(parent.Children, key);
      c := null;
    }

    method MatchOrAddLiteral(parent: Node, name: string, ghost up: seq<Key>) returns (n: Node)
      requires Valid() && up in At && At[up] == parent
      modifies this, parent`Children
      ensures Valid() && Grown(old(At), old(Kids), up + [LiteralKey(name)], n) && fresh(Kids.Keys - old(Kids.Keys))
      ensures Ok(InfoOf(n)) == Touch(Find(old(Trie()), up + [LiteralKey(name)]), StepLiteral(name, ""), [])
      ensures Trie() == old(Trie())[up + [LiteralKey(name)] := InfoOf(n)]
    {
      hide Dispatcher.Valid, Dispatcher.Grown, Dispatcher.Trie;
      var c := Match(parent, LiteralKey(name), up);
      if c != null { return c; }
      n := new Node(LiteralNode, name, null);
      AddChild(parent, n, up);
    }

    /** A choice's literal also remembers what it binds; it cannot bind two names. */
    method MatchOrAddChoiceLiteral(parent: Node, branch: string, bindKey: string, ghost up: seq<Key>)
      returns (r: Result<Node, Refusal>)
      requires Valid() && up in At && At[up] == parent && bindKey != ""
      modifies this, parent`Children, Kids.Keys`BindKey
      ensures Valid() && (r.Ok? ==> Grown(old(At), old(Kids), up + [LiteralKey(branch)], r.value)) &&
              fresh(Kids.Keys - old(Kids.Keys))
      ensures var made := Touch(Find(old(Trie()), up + [LiteralKey(branch)]), StepLiteral(branch, bindKey), []);
              if r.Err? then made == Err(r.error) && At == old(At) && Kids == old(Kids) && Trie() == old(Trie())
              else made == Ok(InfoOf(r.value)) && Trie() == old(Trie())[up + [LiteralKey(branch)] := InfoOf(r.value)]
    {
      hide Dispatcher.Valid, Dispatcher.Grown, Dispatcher.Trie;
      var c := Match(parent, LiteralKey(branch), up);
      if c != null {
        if c.BindKey != "" && c.BindKey != bindKey { return Err(BindKeyConflict); }
        Bind(c, bindKey, up + [LiteralKey(branch)]);
        return Ok(c);
      }
      var n := new Node(LiteralNode, branch, null);
      n.BindKey := bindKey;
      AddChild(parent, n, up);
      return Ok(n);
    }

    /** An argument can only be shared by the same parser. */
    method MatchOrAddArgument(parent: Node, name: string, parser: ArgumentParser, ghost up: seq<Key>)
      returns (r: Result<Node, Refusal>)
      requires Valid() && up in At && At[up] == parent
      modifies this, parent`Children
      ensures Valid() && (r.Ok? ==> Grown(old(At), old(Kids), up + [ArgumentKey(name)], r.value)) &&
              fresh(Kids.Keys - old(Kids.Keys))
      ensures var made := Touch(Find(old(Trie()), up + [ArgumentKey(name)]), StepArgument(name, 0), [parser]);
              if r.Err? then made == Err(r.error) && At == old(At) && Kids == old(Kids) && Trie() == old(Trie())
              else made == Ok(InfoOf(r.value)) && Trie() == old(Trie())[up + [ArgumentKey(name)] := InfoOf(r.value)]
    {
      hide Dispatcher.Valid, Dispatcher.Grown, Dispatcher.Trie;
      var c := Match(parent, ArgumentKey(name), up);
      if c != null {
        if c.Parser != parser { return Err(ParserConflict); }
        return Ok(c);
      }
      var n := new Node(ArgumentNode, name, parser);
      AddChild(parent, n, up);
      return Ok(n);
    }

    method MatchOrAddStep(cur: Node, step: ShapeStep, parsers: seq<ArgumentParser>, ghost up: seq<Key>)
      returns (r: Result<Node, Refusal>)
      requires Valid() && up in At && At[up] == cur && StepInstallable(step, parsers)
      modifies this, cur`Children, Kids.Keys`BindKey
      ensures Valid() && (r.Ok? ==> Grown(old(At), old(Kids), up + [StepKey(step)], r.value)) &&
              fresh(Kids.Keys - old(Kids.Keys))
      ensures var made := Touch(Find(old(Trie()), up + [StepKey(step)]), step, parsers);
              if r.Err? then made == Err(r.error) && Kids == old(Kids)
              else made.Ok? && Trie() == old(Trie())[up + [StepKey(step)] := made.value]
    {
      hide Dispatcher.Valid, Dispatcher.Grown, Dispatcher.Trie;
      match step {
        case StepLiteral(name, bindKey) =>
          if bindKey != "" {
            r := MatchOrAddChoiceLiteral(cur, name, bindKey, up);
          } else {
            var n := MatchOrAddLiteral(cur, name, up);
            r := Ok(n);
          }
        case StepArgument(name, parserIdx) =>
          r := MatchOrAddArgument(cur, name, parsers[parserIdx], up);
      }
    }

    lemma PartsOfValid()
      requires Valid()
      ensures [] in At && At[[]] == Root && Root in Kids
    {
    }

    /** Follow or add the nodes of a shape. */
    method MatchOrAddShape(root: Node, steps: Shape, parsers: seq<ArgumentParser>, ghost up: seq<Key>)
      returns (r: Result<Node, Refusal>)
      requires Valid() && up in At && At[up] == root && root in Kids && Installable(steps, parsers)
      modifies this, Kids.Keys`Children, Kids.Keys`BindKey
      ensures Valid() && fresh(Kids.Keys - old(Kids.Keys))
      ensures var made := Insert(old(Trie()), up, steps, parsers);
              if r.Err? then made == Err(r.error) else made == Ok(Trie())
      ensures r.Ok? ==> up + Keys(steps) in At && At[up + Keys(steps)] == r.value && r.value in Kids
      ensures r.Ok? ==> old(Kids.Keys) <= Kids.Keys && forall p | p in old(At) :: p in At && At[p] == old(At)[p]
    {
      hide Dispatcher.Valid, Dispatcher.Trie, Touch, Insert, Installable;
      var cur := root;
      ghost var path, start := up, Trie();
      assert steps[0..] == steps && up + Keys(steps)[..0] == up;
      for i := 0 to |steps|
        invariant Valid() && old(Kids.Keys) <= Kids.Keys && fresh(Kids.Keys - old(Kids.Keys))
        invariant path == up + Keys(steps)[..i] && path in At && At[path] == cur && cur in Kids
        invariant forall p | p in old(At) :: p in At && At[p] == old(At)[p]
        invariant Installable(steps[i..], parsers)
        invariant Insert(start, up, steps, parsers) == Insert(Trie(), path, steps[i..], parsers)
      {
        InsertNext(Trie(), path, steps, parsers, i);
        KeysNext(up, steps, i);
        InstallableAt(steps, parsers, i);
        var next := MatchOrAddStep(cur, steps[i], parsers, path);
        if next.Err? { return Err(next.error); }
        path := path + [StepKey(steps[i])];
        cur := next.value;
      }
      InsertNone(Trie(), path, steps[|steps|..], parsers);
      assert Keys(steps)[..|steps|] == Keys(steps);
      return Ok(cur);
    }

    /** Give a node its command. */
    method Install(n: Node, cmd: Command, perm: int, ghost p: seq<Key>)
      requires Valid() && p in At && At[p] == n && n in Kids
      modifies n`Run, n`PermissionLevel
      ensures Valid() && Trie() == old(Trie())[p := old(Trie())[p].(run := Some((cmd, perm)))]
    {
      hide IsTree;
      Members(At, Kids);
      forall q | q in At && At[q] == n ensures q == p { OnePath(At, Kids, p, q); }
      n.Run := Some(cmd);
      n.PermissionLevel := perm;
    }

    lemma RunOf(p: seq<Key>)
      requires Valid() && p in At
      ensures At[p] in Kids && (Trie()[p].run == None <==> At[p].Run == None)
    {
    }

    method AttachShape(root: Node, steps: Shape, parsers: seq<ArgumentParser>, cmd: Command, perm: int,
                       ghost up: seq<Key>)
      returns (r: Result<Node, Refusal>)
      requires Valid() && up in At && At[up] == root && root in Kids && Installable(steps, parsers)
      modifies this, Kids.Keys
      ensures Valid() && fresh(Kids.Keys - old(Kids.Keys))
      ensures var made := Register(old(Trie()), up, steps, parsers, cmd, perm);
              if r.Err? then made == Err(r.error) else made == Ok(Trie())
      ensures r.Ok? ==> up + Keys(steps) in At && At[up + Keys(steps)] == r.value
      ensures r.Ok? ==> old(Kids.Keys) <= Kids.Keys && forall p | p in old(At) :: p in At && At[p] == old(At)[p]
    {
      hide Dispatcher.Valid, Dispatcher.Trie, Insert;
      r := MatchOrAddShape(root, steps, parsers, up);
      if r.Ok? && steps != [] {
        RunOf(up + Keys(steps));
        if r.value.Run != None { return Err(AlreadyExecutes); }
        Install(r.value, cmd, perm, up + Keys(steps));
      }
    }

    method EnsureRootLiteral(name: string) returns (n: Node)
      requires Valid()
      modifies this, Root`Children
      ensures Valid() && Grown(old(At), old(Kids), [LiteralKey(name)], n) && fresh(Kids.Keys - old(Kids.Keys))
      ensures Trie() == AddLiteral(old(Trie()), name, null) && n.Name == name
    {
      hide Dispatcher.Valid, Dispatcher.Trie, Dispatcher.Grown;
      PartsOfValid();
      assert [] + [LiteralKey(name)] == [LiteralKey(name)];
      var c := Match(Root, LiteralKey(name), []);
      if c != null { return c; }
      n := new Node(LiteralNode, name, null);
      AddChild(Root, n, []);
    }

    /** An alias is a root literal that redirects to the command; it may be named again, but means nothing else. */
    method EnsureAlias(alias: string, target: Node) returns (refused: Option<Refusal>)
      requires Valid() && target in Kids
      modifies this, Root`Children
      ensures Valid() && fresh(Kids.Keys - old(Kids.Keys)) && old(Kids.Keys) <= Kids.Keys
      ensures refused.Some? <==>
              || alias == "" || alias == target.Name
              || (exists c | c in alias ::
                    !('a' <= c <= 'z' || 'A' <= c <= 'Z' || '0' <= c <= '9' || c == '_' || c == '-'))
              || ([LiteralKey(alias)] in old(At) && old(Trie())[[LiteralKey(alias)]].redirect != target)
      ensures refused.Some? <==> AliasRefused(old(Trie()), alias, target.Name, target)
      ensures refused.Some? ==>
              refused.value == if !IsLiteralName(alias) then BadAlias
                               else if alias == target.Name then AliasIsRoot else AliasTaken
      ensures refused == None ==> Trie() == AddLiteral(old(Trie()), alias, target)
      ensures refused == None ==> forall p | p in old(At) :: p in At && At[p] == old(At)[p]
    {
      hide Dispatcher.Valid, Dispatcher.Trie;
      if !IsLiteralName(alias) { return Some(BadAlias); }
      if alias == target.Name { return Some(AliasIsRoot); }
      PartsOfValid();
      assert [] + [LiteralKey(alias)] == [LiteralKey(alias)];
      var c := Match(Root, LiteralKey(alias), []);
      if c != null {
        if c.Redirect == null { return Some(AliasTaken); }
        if c.Redirect != target { return Some(AliasTaken); }
        return None;
      }
      var n := new Node(LiteralNode, alias, null);
      n.Redirect := target;
      AddChild(Root, n, []);
      return None;
    }

    method AttachShapes(root: Node, shapes: seq<Shape>, parsers: seq<ArgumentParser>, cmds: seq<Command>, perm: int,
                        ghost up: seq<Key>)
      returns (r: Result<Node?, Refusal>)
      requires Valid() && up in At && At[up] == root && root in Kids && |cmds| == |shapes|
      requires forall i | 0 <= i < |shapes| :: Installable(shapes[i], parsers)
      modifies this, Kids.Keys
      ensures Valid() && fresh(Kids.Keys - old(Kids.Keys))
      ensures var made := RegisterAll(old(Trie()), up, shapes, parsers, cmds, perm);
              if r.Err? then made == Err(r.error) else made == Ok(Trie())
      ensures r.Ok? ==> old(Kids.Keys) <= Kids.Keys && up in At && At[up] == root
      ensures r.Ok? && shapes != [] ==>
              r.value != null && up + Keys(shapes[0]) in At && At[up + Keys(shapes[0])] == r.value
    {
      hide Dispatcher.Valid, Dispatcher.Trie, Register;
      ghost var start := Trie();
      assert shapes[0..] == shapes && cmds[0..] == cmds;
      var firstLeaf: Node? := null;
      for i := 0 to |shapes|
        invariant Valid() && old(Kids.Keys) <= Kids.Keys && fresh(Kids.Keys - old(Kids.Keys))
        invariant up in At && At[up] == root && root in Kids
        invariant RegisterAll(start, up, shapes, parsers, cmds, perm)
                  == RegisterAll(Trie(), up, shapes[i..], parsers, cmds[i..], perm)
        invariant i == 0 ==> firstLeaf == null
        invariant i > 0 ==> firstLeaf != null && up + Keys(shapes[0]) in At && At[up + Keys(shapes[0])] == firstLeaf
      {
        assert shapes[i..][0] == shapes[i] && shapes[i..][1..] == shapes[i + 1..];
        assert cmds[i..][0] == cmds[i] && cmds[i..][1..] == cmds[i + 1..];
        var leaf := AttachShape(root, shapes[i], parsers, cmds[i], perm, up);
        if leaf.Err? { return Err(leaf.error); }
        if firstLeaf == null { firstLeaf := leaf.value; }
      }
      return Ok(firstLeaf);
    }

    method EnsureAliases(aliases: seq<string>, target: Node) returns (refused: Option<Refusal>)
      requires Valid() && target in Kids
      modifies this, Root`Children
      ensures Valid() && fresh(Kids.Keys - old(Kids.Keys)) && old(Kids.Keys) <= Kids.Keys
      ensures refused == None ==> forall p | p in old(At) :: p in At && At[p] == old(At)[p]
      ensures refused.Some? <==> exists a | a in aliases :: AliasRefused(old(Trie()), a, target.Name, target)
      ensures refused == None ==> Trie() == WithAliases(old(Trie()), aliases, target)
    {
      hide Dispatcher.Valid, Dispatcher.Trie, AliasRefused, AddLiteral, WithAliases;
      NoAliases(Trie(), target);
      for k := 0 to |aliases|
        invariant Valid() && fresh(Kids.Keys - old(Kids.Keys)) && old(Kids.Keys) <= Kids.Keys
        invariant forall p | p in old(At) :: p in At && At[p] == old(At)[p]
        invariant Trie() == WithAliases(old(Trie()), aliases[..k], target)
        invariant forall i | 0 <= i < k :: !AliasRefused(old(Trie()), aliases[i], target.Name, target)
      {
        OneMoreAlias(old(Trie()), aliases, k, target.Name, target);
        refused := EnsureAlias(aliases[k], target);
        if refused.Some? { return; }
      }
      assert aliases[..|aliases|] == aliases;
      return None;
    }

    /** The root literal and its aliases, unless one is refused. No command changes. */
    method EnsureRoot(b: Builder) returns (r: Result<Node, Refusal>, ghost root: Node)
      requires Valid() && WellBuilt(b)
      modifies this, Root`Children
      ensures Valid() && fresh(Kids.Keys - old(Kids.Keys)) && old(Kids.Keys) <= Kids.Keys
      ensures RootPath(b) in old(At) ==> root == old(At)[RootPath(b)]
      ensures r.Err? <==> exists a | a in b.aliases :: AliasRefused(old(Trie()), a, b.tokens[0].name, root)
      ensures r.Ok? ==>
              RootPath(b) in At && At[RootPath(b)] == r.value == root && root in Kids &&
              AliasesLead(Trie(), b.aliases, root)
      ensures r.Ok? ==> SameCommands(old(Trie()), Trie()) && Trie() == Readied(old(Trie()), b, root)
    {
      hide Dispatcher.Valid, Dispatcher.Trie, AliasesLead, SameCommands, IsLiteralName, WithAliases;
      PartsOfValid();
      SameWithNode(Trie(), RootPath(b), Info("", null, None, null));
      var found := EnsureRootLiteral(b.tokens[0].name);
      root := found;
      PartsOfValid();
      ghost var rooted := Trie();
      var refused := EnsureAliases(b.aliases, found);
      forall a ensures AliasRefused(rooted, a, found.Name, root) <==> AliasRefused(old(Trie()), a, found.Name, root) {}
      if refused.Some? { return Err(refused.value), root; }
      AliasesDone(rooted, b.aliases, found.Name, found);
      SameAsItself(old(Trie()));
      SameTwice(old(Trie()), rooted, Trie());
      return Ok(found), root;
    }

    /**
     Register a builder. It is refused exactly when its commands do not fit, an alias is no
     word of its own or taken, or one of its shapes clashes with what is there. When it is
     not, every leaf shape with steps has its own command, the commands of earlier
     registrations are undisturbed, and every alias leads to the root literal.
     */
    method Attach(b: Builder) returns (r: Result<Node?, Refusal>, ghost root: Node)
      requires Valid() && WellBuilt(b)
      modifies this, Kids.Keys
      ensures Valid() && fresh(Kids.Keys - old(Kids.Keys))
      ensures RootPath(b) in old(At) ==> root == old(At)[RootPath(b)]
      ensures r.Err? <==> TurnedDown(old(Trie()), b, root)
      ensures r.Err? <==>
              || (b.runs.Single? && exists i | 0 <= i < |b.tokens| :: b.tokens[i].TokChoice? && b.tokens[i].name == "")
              || (b.runs.Each? && (b.runs.cmds == [] || |b.runs.cmds| != |LeafShapesOf(b.tokens)|))
              || (exists a | a in b.aliases :: AliasRefused(old(Trie()), a, b.tokens[0].name, root))
              || (ShapesInstallable(b);
                  RegisterAll(Readied(old(Trie()), b, root), RootPath(b), LeafShapesOf(b.tokens), b.parsers,
                              CommandsOf(b), b.perm).Err?)
      ensures r.Ok? ==> old(Kids.Keys) <= Kids.Keys && Registered(old(Trie()), Trie(), b)
      ensures r.Ok? ==> RootPath(b) in At && At[RootPath(b)] == root && AliasesLead(Trie(), b.aliases, root)
    {
      hide Dispatcher.Valid, Dispatcher.Trie, Registered, RegisterAll, LeafShapesOf, AliasesLead, CommandAt, RootPath;
      hide SameCommands, AliasRefused, Readied;
      PartsOfValid();
      root := if RootPath(b) in At then At[RootPath(b)] else Root;
      var anonymous := HasAnonymousChoice(b.tokens);
      if b.runs.Single? && anonymous { return Err(AnonymousChoice), root; }
      if b.runs.Each? && b.runs.cmds == [] { return Err(WrongNumberOfCommands), root; }
      var found;
      found, root := EnsureRoot(b);
      if found.Err? { return Err(found.error), root; }
      r := AttachLeaves(b, found.value, old(Trie()));
    }

    /** The shapes of a builder, below its root literal, each with its command. */
    method AttachLeaves(b: Builder, root: Node, ghost was: Trie) returns (r: Result<Node?, Refusal>)
      requires Valid() && WellBuilt(b) && RootPath(b) in At && At[RootPath(b)] == root && root in Kids
      requires SameCommands(was, Trie()) && AliasesLead(Trie(), b.aliases, root)
      requires Trie() == Readied(was, b, root)
      modifies this, Kids.Keys
      ensures Valid() && fresh(Kids.Keys - old(Kids.Keys))
      ensures r.Ok? <==> |CommandsOf(b)| == |LeafShapesOf(b.tokens)| && ShapesFit(was, b, root)
      ensures r.Ok? ==> old(Kids.Keys) <= Kids.Keys && Registered(was, Trie(), b)
      ensures r.Ok? ==> RootPath(b) in At && At[RootPath(b)] == root && AliasesLead(Trie(), b.aliases, root)
    {
      hide Dispatcher.Valid, Dispatcher.Trie, Registered, RegisterAll, LeafShapesOf, AliasesLead, CommandAt, RootPath;
      hide SameCommands, Readied;
      var shapes := ExpandLeafShapes(b.tokens);
      var cmds := match b.runs
        case Single(cmd) => seq(|shapes|, _ => cmd)
        case Each(cmds) => cmds;
      if |cmds| != |shapes| { return Err(WrongNumberOfCommands); }
      assert cmds == CommandsOf(b);
      ShapesInstallable(b);
      ghost var ready := Trie();
      r := AttachShapes(root, shapes, b.parsers, cmds, b.perm, RootPath(b));
      if r.Ok? { BuilderDone(was, ready, b, root); }
    }

    method HasAnonymousChoice(tokens: seq<Token>) returns (found: bool)
      ensures found <==> exists i | 0 <= i < |tokens| :: tokens[i].TokChoice? && tokens[i].name == ""
    {
      for i := 0 to |tokens|
        invariant forall k | 0 <= k < i :: !(tokens[k].TokChoice? && tokens[k].name == "")
      {
        if tokens[i].TokChoice? && tokens[i].name == "" { return true; }
      }
      return false;
    }

    /**
     A series of registrations: unless one builder is refused, where those before it answer,
     every shape of every builder finds its own command.
     */
    method RegisterBuilders(bs: seq<Builder>) returns (refused: Option<Refusal>)
      requires Valid() && forall i | 0 <= i < |bs| :: WellBuilt(bs[i])
      modifies this, Kids.Keys
      ensures Valid() && fresh(Kids.Keys - old(Kids.Keys))
      ensures refused == None ==> forall i | 0 <= i < |bs| :: Answers(Trie(), bs[i])
      ensures refused == None ==>
              forall q {:trigger CommandAt(Trie(), q)} ::
                CommandAt(old(Trie()), q) != None ==> CommandAt(Trie(), q) == CommandAt(old(Trie()), q)
      ensures refused.Some? ==>
              exists j, was: Trie, root {:trigger TurnedDown(was, bs[j], root)} ::
                0 <= j < |bs| && TurnedDown(was, bs[j], root) && forall i | 0 <= i < j :: Answers(was, bs[i])
    {
      hide Dispatcher.Valid, Dispatcher.Trie, Registered, Answers, LeafShapesOf, AliasesLead, CommandAt, RootPath;
      hide TurnedDown;
      for j := 0 to |bs|
        invariant Valid() && fresh(Kids.Keys - old(Kids.Keys)) && old(Kids.Keys) <= Kids.Keys
        invariant forall i | 0 <= i < j :: Answers(Trie(), bs[i])
        invariant forall q {:trigger CommandAt(Trie(), q)} ::
                    CommandAt(old(Trie()), q) != None ==> CommandAt(Trie(), q) == CommandAt(old(Trie()), q)
      {
        ghost var was := Trie();
        ghost var root;
        var leaf;
        leaf, root := Attach(bs[j]);
        if leaf.Err? {
          assert TurnedDown(was, bs[j], root);
          return Some(leaf.error);
        }
        RegisteredAnswers(was, Trie(), bs[j]);
        forall i | 0 <= i < j ensures Answers(Trie(), bs[i]) { AnswersStay(was, Trie(), bs[i]); }
        forall q {:trigger CommandAt(Trie(), q)} | CommandAt(old(Trie()), q) != None
          ensures CommandAt(Trie(), q) == CommandAt(old(Trie()), q)
        {
          assert CommandAt(was, q) == CommandAt(old(Trie()), q);
        }
      }
      return None;
    }
  }

  lemma {:induction false} Earliest(cs: seq<Node>, i: nat, k: Key)
    requires i < |cs| && KeyOf(cs[i]) == k && forall j | 0 <= j < i :: KeyOf(cs[j]) != k
    ensures ChildOf(cs, k) == cs[i]
  {
    if i == 0 {
    } else {
      Earliest(cs[1..], i - 1, k);
    }
  }

  lemma Nowhere(cs: seq<Node>, k: Key)
    requires forall j | 0 <= j < |cs| :: KeyOf(cs[j]) != k
    ensures ChildOf(cs, k) == null
  {
  }

  /** Every alias is a root literal that redirects to the node. */
  ghost predicate AliasesLead(t: Trie, aliases: seq<string>, n: Node) {
    forall a | a in aliases :: [LiteralKey(a)] in t && t[[LiteralKey(a)]].redirect == n
  }

  /** Once none is refused every alias leads to the command, and no command has changed. */
  lemma AliasesDone(t: Trie, aliases: seq<string>, name: string, root: Node)
    requires forall a | a in aliases :: !AliasRefused(t, a, name, root)
    ensures AliasesLead(WithAliases(t, aliases, root), aliases, root) && SameCommands(t, WithAliases(t, aliases, root))
  {
    hide WithAliases, IsLiteralName;
    var now := WithAliases(t, aliases, root);
    forall p: seq<Key> ensures CommandAt(now, p) == CommandAt(t, p) && (p in t ==> p in now && now[p] == t[p]) {
      AliasesAre(t, aliases, root, p);
    }
    forall a | a in aliases ensures [LiteralKey(a)] in now && now[[LiteralKey(a)]].redirect == root {
      AliasesAre(t, aliases, root, [LiteralKey(a)]);
    }
  }

  ghost predicate SameCommands(was: Trie, t: Trie) {
    && KeepsNodes(was, t)
    && forall q {:trigger CommandAt(t, q)} :: CommandAt(t, q) == CommandAt(was, q)
  }

  lemma SameAsItself(t: Trie)
    ensures SameCommands(t, t)
  {
  }

  lemma SameTwice(a: Trie, b: Trie, c: Trie)
    requires SameCommands(a, b) && SameCommands(b, c)
    ensures SameCommands(a, c)
  {
    hide KeepsNodes, CommandAt;
    KeptTwice(a, b, c);
    forall q ensures CommandAt(c, q) == CommandAt(a, q) {
      assert CommandAt(b, q) == CommandAt(a, q);
    }
  }

  /** A further node without a command. */
  lemma SameWithNode(t: Trie, p: seq<Key>, info: Info)
    requires info.run == None
    ensures p !in t ==> SameCommands(t, t[p := info])
  {
  }

  /** Once root and aliases are there, registering the shapes completes the builder. */
  lemma BuilderDone(was: Trie, ready: Trie, b: Builder, root: Node)
    requires WellBuilt(b) && |CommandsOf(b)| == |LeafShapesOf(b.tokens)|
    requires SameCommands(was, ready) && AliasesLead(ready, b.aliases, root)
    requires forall i | 0 <= i < |LeafShapesOf(b.tokens)| :: Installable(LeafShapesOf(b.tokens)[i], b.parsers)
    requires RegisterAll(ready, RootPath(b), LeafShapesOf(b.tokens), b.parsers, CommandsOf(b), b.perm).Ok?
    ensures var now := RegisterAll(ready, RootPath(b), LeafShapesOf(b.tokens), b.parsers, CommandsOf(b), b.perm).value;
            Registered(was, now, b) && AliasesLead(now, b.aliases, root)
  {
    hide RegisterAll, LeafShapesOf, CommandsOf, CommandAt, Registered, AliasesLead, Installable, RootPath;
    BuilderRegisters(was, ready, b);
    AliasesStay(ready, RegisterAll(ready, RootPath(b), LeafShapesOf(b.tokens), b.parsers, CommandsOf(b), b.perm).value,
                b.aliases, root);
  }

  lemma AliasesStay(t: Trie, t': Trie, aliases: seq<string>, n: Node)
    requires AliasesLead(t, aliases, n) && KeepsNodes(t, t')
    ensures AliasesLead(t', aliases, n)
  {
  }

  ghost function InfoOf(n: Node): Info
    reads n`BindKey, n`Run, n`PermissionLevel, n`Redirect
  {
    Info(n.BindKey, n.Parser, if n.Run == None then None else Some((n.Run.value, n.PermissionLevel)), n.Redirect)
  }
}
