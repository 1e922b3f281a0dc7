/**
 What a parse is, independently of how it is found: a connected path of permitted
 children with ordered ranges, the furthest that any choice of children allows.
 */
module CommandTheorems {
  import opened Wrappers
  import opened Readers
  import opened CommandNodes
  import opened CommandParsing

  // ----- paths

  /** An argument's parser takes the text from `start` to `end`, which a space or the end of input follows. */
  predicate Takes(c: Node, input: string, start: nat, end: nat)
    requires start <= |input|
  {
    && c.Kind == ArgumentNode && c.Parser != null
    && c.Parser.Parse(input, start).Parsed? && c.Parser.Parse(input, start).end == end <= |input|
    && (end == |input| || input[end] == ' ')
  }

  /** One step that the grammar allows from `n` at `i`: over spaces, then the text of a child the level reaches. */
  ghost predicate Step(nodes: set<Node>, level: int, input: string, n: Node, i: nat, p: ParsedNode)
    reads nodes
    requires Closed(nodes) && n in nodes && i <= |input|
  {
    && p.start == SkipSpaces(input, i) && p.start < p.end <= |input|
    && p.node in n.Children && p.node.PermissionLevel <= level
    && (p.node.Kind == LiteralNode ==> p.end == WordEnd(input, p.start) && input[p.start..p.end] == p.node.Name)
    && (p.node.Kind != LiteralNode ==> Takes(p.node, input, p.start, p.end))
  }

  /** The first literal with that name among the children. */
  predicate IsFirstLiteral(cs: seq<Node>, k: int, name: string) {
    && 0 <= k < |cs| && cs[k].Kind == LiteralNode && cs[k].Name == name
    && forall j | 0 <= j < k :: cs[j].Kind == LiteralNode ==> cs[j].Name != name
  }

  /** The first literal that is the next word rules out every other child, unless the level does not reach it. */
  ghost predicate NotOverruled(nodes: set<Node>, level: int, input: string, n: Node, i: nat, p: ParsedNode)
    reads nodes
    requires Closed(nodes) && n in nodes && i <= |input| && SkipSpaces(input, i) < |input|
  {
    var start := SkipSpaces(input, i);
    var word := input[start..WordEnd(input, start)];
    && (p.node.Kind == LiteralNode ==> exists k :: IsFirstLiteral(n.Children, k, word) && n.Children[k] == p.node)
    && (p.node.Kind != LiteralNode ==>
          forall k | IsFirstLiteral(n.Children, k, word) :: n.Children[k].PermissionLevel > level)
  }

  /** A path of allowed steps, each starting where the one before ended, through redirects. */
  ghost predicate Path(nodes: set<Node>, level: int, input: string, n: Node, i: nat, path: seq<ParsedNode>)
    reads nodes
    requires Closed(nodes) && n in nodes && i <= |input|
    decreases |path|
  {
    path == [] ||
    (&& Step(nodes, level, input, n, i, path[0])
     && NotOverruled(nodes, level, input, n, i, path[0])
     && path[0].node.Target() in nodes
     && Path(nodes, level, input, path[0].node.Target(), path[0].end, path[1..]))
  }

  /** The node a path leads to. */
  ghost function EndNode(n: Node, path: seq<ParsedNode>): Node
    reads set p | p in path :: p.node
  {
    if path == [] then n else path[|path| - 1].node.Target()
  }

  /** The position a path leads to, over the spaces that follow it. */
  function EndCursor(input: string, i: nat, path: seq<ParsedNode>): nat
    requires i <= |input| && forall k | 0 <= k < |path| :: path[k].end <= |input|
  {
    if path == [] then SkipSpaces(input, i) else SkipSpaces(input, path[|path| - 1].end)
  }

  /** The ranges of a path ascend, do not overlap, and are separated by spaces only. */
  lemma {:induction false} RangesAscend(nodes: set<Node>, level: int, input: string, n: Node, i: nat,
                                        path: seq<ParsedNode>)
    requires Closed(nodes) && n in nodes && i <= |input| && Path(nodes, level, input, n, i, path)
    ensures forall k | 0 <= k < |path| :: i <= path[k].start < path[k].end <= |input|
    ensures forall k | 0 <= k < |path| - 1 :: path[k].end <= path[k + 1].start
    ensures forall k, j | 0 <= k < |path| - 1 && path[k].end <= j < path[k + 1].start :: input[j] == ' '
    decreases |path|
  {
    if path == [] {
    } else {
      RangesAscend(nodes, level, input, path[0].node.Target(), path[0].end, path[1..]);
      forall k | 0 <= k < |path| ensures i <= path[k].start < path[k].end <= |input| {
        if k > 0 { assert path[k] == path[1..][k - 1]; }
      }
      forall k | 0 <= k < |path| - 1
        ensures path[k].end <= path[k + 1].start
        ensures forall j | path[k].end <= j < path[k + 1].start :: input[j] == ' '
      {
        if k > 0 {
          assert path[k] == path[1..][k - 1] && path[k + 1] == path[1..][k];
        } else if |path| > 1 {
          assert path[1] == path[1..][0];
        }
      }
    }
  }

  // ----- soundness

  lemma {:induction false} FirstLiteralAt(cs: seq<Node>, name: string) returns (k: nat)
    ensures k <= |cs| && (FirstLiteral(cs, name) == null <==> k == |cs|)
    ensures forall j :: IsFirstLiteral(cs, j, name) <==> j == k < |cs|
    ensures k < |cs| ==> cs[k] == FirstLiteral(cs, name)
  {
    if cs == [] {
      k := 0;
    } else if cs[0].Kind == LiteralNode && cs[0].Name == name {
      k := 0;
      assert IsFirstLiteral(cs, 0, name);
    } else {
      var rest := FirstLiteralAt(cs[1..], name);
      k := rest + 1;
      forall j ensures IsFirstLiteral(cs, j, name) <==> j == k < |cs| {
        LaterLiteral(cs, j, name);
      }
    }
  }

  lemma LaterLiteral(cs: seq<Node>, j: int, name: string)
    requires cs != [] && !(cs[0].Kind == LiteralNode && cs[0].Name == name)
    ensures IsFirstLiteral(cs, j, name) <==> IsFirstLiteral(cs[1..], j - 1, name)
  {
    if 0 < j < |cs| {
      forall i | 0 < i < j ensures cs[i] == cs[1..][i - 1] {}
      if IsFirstLiteral(cs, j, name) {
        forall i | 0 <= i < j - 1 ensures cs[1..][i] == cs[i + 1] {}
      }
    }
  }

  /** The deciding child is the first literal that is the next word, if the level reaches it. */
  lemma DecidingIs(n: Node, input: string, start: nat, level: int)
    requires start <= |input|
    ensures var word, c := input[start..WordEnd(input, start)], Deciding(n, input, start, level);
            && (c != null ==> c.PermissionLevel <= level &&
                              exists k :: IsFirstLiteral(n.Children, k, word) && n.Children[k] == c)
            && (c == null ==> forall k | IsFirstLiteral(n.Children, k, word) :: n.Children[k].PermissionLevel > level)
            && (forall k | IsFirstLiteral(n.Children, k, word) && n.Children[k].PermissionLevel <= level ::
                  n.Children[k] == c)
  {
    hide IsFirstLiteral, FirstLiteral;
    var word := input[start..WordEnd(input, start)];
    var k := FirstLiteralAt(n.Children, word);
    var c := Deciding(n, input, start, level);
    assert n.FindLiteralChild(word) == FirstLiteral(n.Children, word);
    if c != null {
      assert IsFirstLiteral(n.Children, k, word) && n.Children[k] == c;
    }
  }

  /** What an allowed step is: the deciding literal, or else an argument whose parser takes the text. */
  lemma AllowedIs(nodes: set<Node>, level: int, input: string, n: Node, i: nat, p: ParsedNode)
    requires Closed(nodes) && n in nodes && i <= |input| && SkipSpaces(input, i) < |input|
    ensures Step(nodes, level, input, n, i, p) && NotOverruled(nodes, level, input, n, i, p) <==>
            var start := SkipSpaces(input, i);
            var c := Deciding(n, input, start, level);
            && p.start == start < p.end <= |input|
            && if c != null then p.node == c && p.end == WordEnd(input, start)
               else && p.node in n.Children && Candidate(p.node, level)
                    && p.node.Parser != null && ArgumentEnd(p.node, input, start) == Ok(p.end)
  {
    hide Deciding;
    DecidingIs(n, input, SkipSpaces(input, i), level);
  }

  /** The step the parser takes is one the grammar allows. */
  lemma LiteralStep(nodes: set<Node>, level: int, input: string, n: Node, i: nat)
    requires Closed(nodes) && n in nodes && i <= |input| && SkipSpaces(input, i) < |input|
    requires Deciding(n, input, SkipSpaces(input, i), level) != null
    ensures var start := SkipSpaces(input, i);
            var c := Deciding(n, input, start, level);
            var p := ParsedNode(c, start, WordEnd(input, start));
            && Step(nodes, level, input, n, i, p) && NotOverruled(nodes, level, input, n, i, p)
            && c.Target() in nodes
  {
    var start := SkipSpaces(input, i);
    var c := Deciding(n, input, start, level);
    StepsForward(n, input, start);
    AllowedIs(nodes, level, input, n, i, ParsedNode(c, start, WordEnd(input, start)));
  }

  /** Some node of the path is redirected as a fork. */
  ghost predicate Forked(path: seq<ParsedNode>)
    reads set p | p in path :: p.node
  {
    exists k | 0 <= k < |path| :: path[k].node.Redirect != null && path[k].node.IsFork
  }

  /** What an argument that cannot be taken reports: its parser's refusal, or that no space follows its text. */
  predicate Complains(c: Node, input: string, at: nat, e: ParseError)
    requires c.Parser != null && at <= |input|
  {
    match c.Parser.Parse(input, at)
    case Refused(p) => e == FromParser(p)
    case Parsed(_, end) => end < |input| && input[end] != ' ' && e == ExpectedSeparator(end)
  }

  /** Every argument among `cs` that the level reaches complains; `es` are the complaints, in order. */
  predicate AllComplain(cs: seq<Node>, level: int, input: string, at: nat, es: seq<ParseError>)
    reads cs
    requires at <= |input|
    decreases |cs|
  {
    if cs == [] then es == []
    else
      var c, before := cs[|cs| - 1], cs[..|cs| - 1];
      if c.Kind == ArgumentNode && c.PermissionLevel <= level then
        && es != [] && c.Parser != null && Complains(c, input, at, es[|es| - 1])
        && AllComplain(before, level, input, at, es[..|es| - 1])
      else AllComplain(before, level, input, at, es)
  }

  /** No child of `n` can be taken at `at`, and that is what is reported. */
  ghost predicate Stuck(n: Node, level: int, input: string, at: nat, errors: seq<ParseError>)
    reads n, n.Children
    requires at <= |input|
  {
    && (forall k | IsFirstLiteral(n.Children, k, input[at..WordEnd(input, at)]) ::
         n.Children[k].PermissionLevel > level)
    && (|| (errors != [] && AllComplain(n.Children, level, input, at, errors))
        || (errors == [UnknownCommand(at)] && AllComplain(n.Children, level, input, at, [])))
  }

  /**
   An outcome is a path. It has the run of its end as command if and only if all input is
   used, reports why no child of its end can be taken if and only if some input is left,
   and forks exactly when a node of the path does.
   */
  ghost predicate Sound(nodes: set<Node>, level: int, input: string, n: Node, i: nat, o: Outcome)
    reads nodes
    requires Closed(nodes) && n in nodes && i <= |input|
  {
    && Path(nodes, level, input, n, i, o.nodes)
    && (forall k | 0 <= k < |o.nodes| :: o.nodes[k].end <= |input| && o.nodes[k].node in nodes)
    && o.cursor == EndCursor(input, i, o.nodes)
    && o.command == (if o.cursor == |input| then EndNode(n, o.nodes).Run else None)
    && EndNode(n, o.nodes) in nodes
    && (if o.cursor == |input| then o.errors == [] else Stuck(EndNode(n, o.nodes), level, input, o.cursor, o.errors))
    && (o.forks <==> Forked(o.nodes))
  }

  lemma PrefixSound(nodes: set<Node>, level: int, input: string, n: Node, i: nat, p: ParsedNode, fork: bool, o: Outcome)
    requires Closed(nodes) && n in nodes && i <= |input| && SkipSpaces(input, i) < |input|
    requires Step(nodes, level, input, n, i, p) && NotOverruled(nodes, level, input, n, i, p)
    requires p.node.Target() in nodes && Sound(nodes, level, input, p.node.Target(), p.end, o)
    requires fork <==> p.node.Redirect != null && p.node.IsFork
    ensures Sound(nodes, level, input, n, i, Prefixed(p, fork, o))
  {
    hide Step, NotOverruled, Closed, Stuck;
    var path := [p] + o.nodes;
    assert path[1..] == o.nodes;
    InGraph(nodes, level, input, n, i, p);
    forall k | 0 <= k < |path| ensures path[k].end <= |input| && path[k].node in nodes {
      if k > 0 { assert path[k] == o.nodes[k - 1]; }
    }
    if o.nodes != [] { assert path[|path| - 1] == o.nodes[|o.nodes| - 1]; }
    if Forked(o.nodes) {
      var k :| 0 <= k < |o.nodes| && o.nodes[k].node.Redirect != null && o.nodes[k].node.IsFork;
      assert path[k + 1] == o.nodes[k];
    }
    if fork { assert path[0] == p; }
  }

  /** When no attempt succeeds, every child the level reaches has complained. */
  lemma {:induction false} NoneTaken(nodes: set<Node>, level: int, input: string, cs: seq<Node>, k: nat, start: nat)
    requires Closed(nodes) && start < |input| && input[start] != ' ' && k <= |cs|
    requires forall l | 0 <= l < |cs| :: cs[l] in nodes
    requires Best(nodes, level, input, cs[..k], start) == None
    ensures AllComplain(cs[..k], level, input, start, AttemptErrors(nodes, level, input, cs[..k], start))
  {
    hide Best, AttemptErrors, Closed;
    if k == 0 {
      NoChildren(nodes, level, input, cs, start);
    } else {
      NextChild(nodes, level, input, cs, k - 1, start);
      NoneTaken(nodes, level, input, cs, k - 1, start);
      assert cs[..k][..k - 1] == cs[..k - 1];
      var errors := AttemptErrors(nodes, level, input, cs[..k - 1], start);
      if Candidate(cs[k - 1], level) {
        ComplaintIs(nodes, level, input, cs[k - 1], start);
        var e := ArgumentEnd(cs[k - 1], input, start).error;
        assert (errors + [e])[..|errors|] == errors;
      } else {
        assert errors + [] == errors;
      }
    }
  }

  lemma ComplaintIs(nodes: set<Node>, level: int, input: string, c: Node, start: nat)
    requires Closed(nodes) && c in nodes && start < |input| && input[start] != ' ' && Candidate(c, level)
    requires Attempt(nodes, level, input, c, start) == None
    ensures c.Parser != null && ArgumentEnd(c, input, start).Err?
    ensures Complains(c, input, start, ArgumentEnd(c, input, start).error)
  {
  }

  lemma InGraph(nodes: set<Node>, level: int, input: string, n: Node, i: nat, p: ParsedNode)
    requires Closed(nodes) && n in nodes && i <= |input| && Step(nodes, level, input, n, i, p)
    ensures p.node in nodes && p.end <= |input|
  {
    var k :| 0 <= k < |n.Children| && n.Children[k] == p.node;
  }

  lemma {:induction false} ParseIsSound(nodes: set<Node>, level: int, input: string, n: Node, i: nat)
    requires Closed(nodes) && n in nodes && i <= |input|
    ensures Sound(nodes, level, input, n, i, ParseFrom(nodes, level, input, n, i))
    decreases |input| - i, 1, 0
  {
    hide ParseFrom, Best, AttemptErrors, Attempt, Step, NotOverruled, Deciding;
    var start := SkipSpaces(input, i);
    if start == |input| {
      AtEnd(nodes, level, input, n, i);
    } else if Deciding(n, input, start, level) != null {
      var c, end := Deciding(n, input, start, level), WordEnd(input, start);
      AtLiteral(nodes, level, input, n, i, start);
      LiteralStep(nodes, level, input, n, i);
      ParseIsSound(nodes, level, input, c.Target(), end);
      PrefixSound(nodes, level, input, n, i, ParsedNode(c, start, end), ForksAt(c),
                  ParseFrom(nodes, level, input, c.Target(), end));
    } else {
      AtArguments(nodes, level, input, n, i, start);
      ChildrenInside(nodes, n);
      assert n.Children[..|n.Children|] == n.Children;
      BestIsSound(nodes, level, input, n, i, |n.Children|);
      if Best(nodes, level, input, n.Children, start) == None {
        NoneTaken(nodes, level, input, n.Children, |n.Children|, start);
        DecidingIs(n, input, start, level);
      }
    }
  }

  lemma AttemptIsSound(nodes: set<Node>, level: int, input: string, n: Node, i: nat, c: Node)
    requires Closed(nodes) && n in nodes && i <= |input| && SkipSpaces(input, i) < |input|
    requires Deciding(n, input, SkipSpaces(input, i), level) == null && c in n.Children && c in nodes
    ensures var o := Attempt(nodes, level, input, c, SkipSpaces(input, i));
            o.Some? ==> Sound(nodes, level, input, n, i, o.value)
    decreases |input| - i, 0, 0
  {
    hide ParseFrom, Sound, Path, Step, NotOverruled, Deciding;
    var start := SkipSpaces(input, i);
    if Candidate(c, level) && ArgumentEnd(c, input, start).Ok? {
      var end := ArgumentEnd(c, input, start).value;
      StepsForward(c, input, start);
      AllowedIs(nodes, level, input, n, i, ParsedNode(c, start, end));
      ParseIsSound(nodes, level, input, c.Target(), end);
      PrefixSound(nodes, level, input, n, i, ParsedNode(c, start, end), ForksAt(c),
                  ParseFrom(nodes, level, input, c.Target(), end));
    }
  }

  lemma {:induction false} BestIsSound(nodes: set<Node>, level: int, input: string, n: Node, i: nat, k: nat)
    requires Closed(nodes) && n in nodes && i <= |input| && SkipSpaces(input, i) < |input|
    requires Deciding(n, input, SkipSpaces(input, i), level) == null && k <= |n.Children|
    ensures forall j | 0 <= j < k :: n.Children[j] in nodes
    ensures var o := Best(nodes, level, input, n.Children[..k], SkipSpaces(input, i));
            o.Some? ==> Sound(nodes, level, input, n, i, o.value)
    decreases |input| - i, 0, k + 1
  {
    hide Sound, Attempt, AttemptErrors, Deciding;
    if k == 0 {
    } else {
      BestIsSound(nodes, level, input, n, i, k - 1);
      AttemptIsSound(nodes, level, input, n, i, n.Children[k - 1]);
      NextChild(nodes, level, input, n.Children, k - 1, SkipSpaces(input, i));
    }
  }

  /**
   The first literal child that is the next word is taken exactly when the level reaches
   it; otherwise, or when there is none, no literal is.
   */
  lemma LiteralDecides(nodes: set<Node>, level: int, input: string, n: Node, i: nat)
    requires Closed(nodes) && n in nodes && i <= |input| && SkipSpaces(input, i) < |input|
    ensures var start := SkipSpaces(input, i);
            var end := WordEnd(input, start);
            var taken := ParseFrom(nodes, level, input, n, i).nodes;
            && (forall k | IsFirstLiteral(n.Children, k, input[start..end]) && n.Children[k].PermissionLevel <= level ::
                  taken != [] && taken[0] == ParsedNode(n.Children[k], start, end))
            && ((forall k | IsFirstLiteral(n.Children, k, input[start..end]) :: n.Children[k].PermissionLevel > level)
                ==> taken == [] || taken[0].node.Kind == ArgumentNode)
  {
    hide ParseFrom, Deciding, IsFirstLiteral;
    var start := SkipSpaces(input, i);
    DecidingIs(n, input, start, level);
    ParseIsSound(nodes, level, input, n, i);
    if Deciding(n, input, start, level) != null {
      AtLiteral(nodes, level, input, n, i, start);
    }
  }

  // ----- how far a parse gets

  lemma PastSpaces(nodes: set<Node>, level: int, input: string, n: Node, i: nat)
    requires Closed(nodes) && n in nodes && i <= |input|
    ensures SkipSpaces(input, i) <= ParseFrom(nodes, level, input, n, i).cursor
  {
    hide Best, AttemptErrors;
    var start := SkipSpaces(input, i);
    if start < |input| && Deciding(n, input, start, level) != null {
      AtLiteral(nodes, level, input, n, i, start);
    }
  }

  lemma {:induction false} BestDominates(nodes: set<Node>, level: int, input: string, cs: seq<Node>, k: nat, j: nat,
                                         start: nat)
    requires Closed(nodes) && start < |input| && input[start] != ' ' && j < k <= |cs|
    requires forall l | 0 <= l < |cs| :: cs[l] in nodes
    ensures var a, b := Attempt(nodes, level, input, cs[j], start), Best(nodes, level, input, cs[..k], start);
            a.Some? ==> b.Some? && a.value.cursor <= b.value.cursor
    decreases k
  {
    hide Attempt, AttemptErrors, Best;
    NextChild(nodes, level, input, cs, k - 1, start);
    if j == k - 1 {
    } else {
      BestDominates(nodes, level, input, cs, k - 1, j, start);
    }
  }

  /** No path that the grammar allows ends beyond where the parse ends. */
  lemma {:induction false} Furthest(nodes: set<Node>, level: int, input: string, n: Node, i: nat, path: seq<ParsedNode>)
    requires Closed(nodes) && n in nodes && i <= |input| && Path(nodes, level, input, n, i, path)
    ensures forall k | 0 <= k < |path| :: path[k].end <= |input|
    ensures EndCursor(input, i, path) <= ParseFrom(nodes, level, input, n, i).cursor
    decreases |path|
  {
    RangesAscend(nodes, level, input, n, i, path);
    if path == [] {
      PastSpaces(nodes, level, input, n, i);
    } else {
      hide ParseFrom, Best, AttemptErrors;
      var p, start := path[0], SkipSpaces(input, i);
      Furthest(nodes, level, input, p.node.Target(), p.end, path[1..]);
      assert EndCursor(input, i, path) == EndCursor(input, p.end, path[1..]);
      AllowedIs(nodes, level, input, n, i, p);
      if Deciding(n, input, start, level) != null {
        AtLiteral(nodes, level, input, n, i, start);
      } else {
        hide Step, NotOverruled, Deciding;
        AtArguments(nodes, level, input, n, i, start);
        ChildrenInside(nodes, n);
        var j :| 0 <= j < |n.Children| && n.Children[j] == p.node;
        BestDominates(nodes, level, input, n.Children, |n.Children|, j, start);
        assert n.Children[..|n.Children|] == n.Children;
      }
    }
  }

  /** The whole input is parsed if and only if some allowed path uses all of it. */
  lemma ParsesAllIff(nodes: set<Node>, level: int, input: string, n: Node)
    requires Closed(nodes) && n in nodes
    ensures ParseFrom(nodes, level, input, n, 0).cursor == |input| <==>
            exists path :: UsesAll(nodes, level, input, n, path)
  {
    hide ParseFrom;
    var o := ParseFrom(nodes, level, input, n, 0);
    ParseIsSound(nodes, level, input, n, 0);
    if o.cursor == |input| {
      assert UsesAll(nodes, level, input, n, o.nodes);
    }
    forall path | UsesAll(nodes, level, input, n, path) ensures o.cursor == |input| {
      Furthest(nodes, level, input, n, 0, path);
    }
  }

  ghost predicate UsesAll(nodes: set<Node>, level: int, input: string, n: Node, path: seq<ParsedNode>)
    reads nodes
    requires Closed(nodes) && n in nodes
  {
    && Path(nodes, level, input, n, 0, path)
    && (forall k | 0 <= k < |path| :: path[k].end <= |input|)
    && EndCursor(input, 0, path) == |input|
  }

  // ----- which of the furthest paths a parse takes

  /** The first position of a node among children, or their number. */
  function IndexOf(cs: seq<Node>, c: Node): (k: nat)
    ensures k <= |cs|
    ensures k < |cs| ==> cs[k] == c
    ensures forall j | 0 <= j < k :: cs[j] != c
  {
    if cs == [] then 0
    else if cs[0] == c then 0
    else IndexOf(cs[1..], c) + 1
  }

  /** At the first step where the paths differ, the one takes an earlier child than the other. */
  ghost predicate Precedes(nodes: set<Node>, n: Node, p: seq<ParsedNode>, q: seq<ParsedNode>)
    reads nodes
    requires Closed(nodes) && n in nodes
    decreases |p|
  {
    && p != [] && q != []
    && (|| IndexOf(n.Children, p[0].node) < IndexOf(n.Children, q[0].node)
        || (&& p[0] == q[0] && p[0].node in nodes && p[0].node.Target() in nodes
            && Precedes(nodes, p[0].node.Target(), p[1..], q[1..])))
  }

  lemma {:induction false} PrecedesIsAsymmetric(nodes: set<Node>, n: Node, p: seq<ParsedNode>, q: seq<ParsedNode>)
    requires Closed(nodes) && n in nodes && Precedes(nodes, n, p, q)
    ensures !Precedes(nodes, n, q, p)
    decreases |p|
  {
    if p[0] == q[0] { PrecedesIsAsymmetric(nodes, p[0].node.Target(), p[1..], q[1..]); }
  }

  /** The best attempt is the one of the first child whose attempt gets as far. */
  lemma {:induction false} BestIsFirst(nodes: set<Node>, level: int, input: string, cs: seq<Node>, k: nat, start: nat)
    returns (b: nat)
    requires Closed(nodes) && start < |input| && input[start] != ' ' && k <= |cs|
    requires forall l | 0 <= l < |cs| :: cs[l] in nodes
    requires Best(nodes, level, input, cs[..k], start).Some?
    ensures b < k && Best(nodes, level, input, cs[..k], start) == Attempt(nodes, level, input, cs[b], start)
    ensures forall j | 0 <= j < b && Attempt(nodes, level, input, cs[j], start).Some? ::
              Attempt(nodes, level, input, cs[j], start).value.cursor
              < Attempt(nodes, level, input, cs[b], start).value.cursor
    decreases k
  {
    hide Attempt, AttemptErrors, Best;
    NoneOfNone(nodes, level, input, cs, start);
    NextChild(nodes, level, input, cs, k - 1, start);
    var before, last := Best(nodes, level, input, cs[..k - 1], start), Attempt(nodes, level, input, cs[k - 1], start);
    if last.Some? && (before.None? || last.value.cursor > before.value.cursor) {
      b := k - 1;
      forall j | 0 <= j < b && Attempt(nodes, level, input, cs[j], start).Some?
        ensures Attempt(nodes, level, input, cs[j], start).value.cursor < last.value.cursor
      {
        BestDominates(nodes, level, input, cs, k - 1, j, start);
      }
    } else {
      b := BestIsFirst(nodes, level, input, cs, k - 1, start);
    }
  }

  lemma NoneOfNone(nodes: set<Node>, level: int, input: string, cs: seq<Node>, start: nat)
    requires Closed(nodes) && start < |input| && input[start] != ' '
    ensures Best(nodes, level, input, cs[..0], start) == None
  {
  }

  /** A path that gets nowhere is the empty one. */
  lemma NoProgress(nodes: set<Node>, level: int, input: string, n: Node, i: nat, path: seq<ParsedNode>)
    requires Closed(nodes) && n in nodes && i <= |input| && Path(nodes, level, input, n, i, path)
    requires forall k | 0 <= k < |path| :: path[k].end <= |input|
    ensures EndCursor(input, i, path) == SkipSpaces(input, i) ==> path == []
  {
    if path != [] {
      RangesAscend(nodes, level, input, n, i, path);
      LaterEnds(nodes, level, input, n, i, path);
    }
  }

  lemma {:induction false} LaterEnds(nodes: set<Node>, level: int, input: string, n: Node, i: nat,
                                     path: seq<ParsedNode>)
    requires Closed(nodes) && n in nodes && i <= |input| && Path(nodes, level, input, n, i, path) && path != []
    ensures SkipSpaces(input, i) < path[|path| - 1].end
    decreases |path|
  {
    if |path| <= 1 {
    } else {
      var p := path[0];
      LaterEnds(nodes, level, input, p.node.Target(), p.end, path[1..]);
      assert path[1..][|path| - 2] == path[|path| - 1];
    }
  }

  /** The attempt of an allowed first step, with what follows it. */
  lemma AttemptOfStep(nodes: set<Node>, level: int, input: string, n: Node, i: nat, p: ParsedNode)
    requires Closed(nodes) && n in nodes && i <= |input| && SkipSpaces(input, i) < |input|
    requires Step(nodes, level, input, n, i, p) && p.node.Kind == ArgumentNode
    ensures p.node in nodes && p.node.Target() in nodes && p.end <= |input|
    ensures Attempt(nodes, level, input, p.node, SkipSpaces(input, i)) ==
            Some(Prefixed(p, ForksAt(p.node), ParseFrom(nodes, level, input, p.node.Target(), p.end)))
  {
    hide ParseFrom;
    InGraph(nodes, level, input, n, i, p);
  }

  /** An attempt begins with its own child. */
  lemma AttemptBegins(nodes: set<Node>, level: int, input: string, c: Node, start: nat)
    requires Closed(nodes) && c in nodes && start < |input| && input[start] != ' '
    requires Attempt(nodes, level, input, c, start).Some?
    ensures var o := Attempt(nodes, level, input, c, start).value;
            o.nodes != [] && o.nodes[0].node == c
  {
    hide ParseFrom;
  }

  /** The chosen child is the first of all that get as far, so no allowed first step that does comes before it. */
  lemma ChosenIsFirst(nodes: set<Node>, level: int, input: string, n: Node, i: nat, p: ParsedNode, cursor: nat)
    requires Closed(nodes) && n in nodes && i <= |input| && SkipSpaces(input, i) < |input|
    requires Deciding(n, input, SkipSpaces(input, i), level) == null
    requires Step(nodes, level, input, n, i, p) && p.node.Kind == ArgumentNode
    requires p.node in nodes && p.node.Target() in nodes && p.end <= |input|
    requires cursor == ParseFrom(nodes, level, input, n, i).cursor
             <= ParseFrom(nodes, level, input, p.node.Target(), p.end).cursor
    ensures var o := ParseFrom(nodes, level, input, n, i);
            && o.nodes != []
            && (|| IndexOf(n.Children, o.nodes[0].node) < IndexOf(n.Children, p.node)
                || o == Prefixed(p, ForksAt(p.node), ParseFrom(nodes, level, input, p.node.Target(), p.end)))
  {
    hide ParseFrom, Best, AttemptErrors, Attempt, Step;
    var start, cs := SkipSpaces(input, i), n.Children;
    AtArguments(nodes, level, input, n, i, start);
    ChildrenInside(nodes, n);
    assert cs[..|cs|] == cs;
    AttemptOfStep(nodes, level, input, n, i, p);
    var j := IndexOf(cs, p.node);
    assert p.node in cs by { InChildren(nodes, level, input, n, i, p); }
    BestDominates(nodes, level, input, cs, |cs|, j, start);
    var b := BestIsFirst(nodes, level, input, cs, |cs|, start);
    AttemptBegins(nodes, level, input, cs[b], start);
    assert b <= j;
  }

  lemma InChildren(nodes: set<Node>, level: int, input: string, n: Node, i: nat, p: ParsedNode)
    requires Closed(nodes) && n in nodes && i <= |input| && Step(nodes, level, input, n, i, p)
    ensures p.node in n.Children
  {
  }

  /** Of all allowed paths that get as far as the parse, its own is the first in the order of children. */
  lemma {:induction false} FirstOfFurthest(nodes: set<Node>, level: int, input: string, n: Node, i: nat,
                                           path: seq<ParsedNode>)
    requires Closed(nodes) && n in nodes && i <= |input| && Path(nodes, level, input, n, i, path)
    requires forall k | 0 <= k < |path| :: path[k].end <= |input|
    requires EndCursor(input, i, path) == ParseFrom(nodes, level, input, n, i).cursor
    ensures var taken := ParseFrom(nodes, level, input, n, i).nodes;
            taken == path || Precedes(nodes, n, taken, path)
    decreases |path|
  {
    hide ParseFrom, Best, AttemptErrors, Attempt, Step, Deciding;
    var o := ParseFrom(nodes, level, input, n, i);
    ParseIsSound(nodes, level, input, n, i);
    if path == [] {
      NoProgress(nodes, level, input, n, i, o.nodes);
    } else {
      var p, rest := path[0], path[1..];
      InGraph(nodes, level, input, n, i, p);
      StepIsInside(nodes, level, input, n, i, p);
      Furthest(nodes, level, input, p.node.Target(), p.end, rest);
      assert EndCursor(input, i, path) == EndCursor(input, p.end, rest);
      AllowedIs(nodes, level, input, n, i, p);
      if Deciding(n, input, SkipSpaces(input, i), level) != null {
        AfterLiteral(nodes, level, input, n, i, p);
      } else {
        ChosenIsFirst(nodes, level, input, n, i, p, o.cursor);
      }
      var after := ParseFrom(nodes, level, input, p.node.Target(), p.end);
      if o == Prefixed(p, ForksAt(p.node), after) {
        FirstOfFurthest(nodes, level, input, p.node.Target(), p.end, rest);
        assert o.nodes[0] == p && o.nodes[1..] == after.nodes;
        assert [p] + rest == path;
      }
    }
  }

  lemma StepIsInside(nodes: set<Node>, level: int, input: string, n: Node, i: nat, p: ParsedNode)
    requires Closed(nodes) && n in nodes && i <= |input| && Step(nodes, level, input, n, i, p)
    ensures SkipSpaces(input, i) < |input| && p.end <= |input|
  {
  }

  lemma AfterLiteral(nodes: set<Node>, level: int, input: string, n: Node, i: nat, p: ParsedNode)
    requires Closed(nodes) && n in nodes && i <= |input| && SkipSpaces(input, i) < |input|
    requires Step(nodes, level, input, n, i, p) && NotOverruled(nodes, level, input, n, i, p)
    requires Deciding(n, input, SkipSpaces(input, i), level) != null
    ensures p.node in nodes && p.node.Target() in nodes && p.end <= |input|
    ensures ParseFrom(nodes, level, input, n, i) ==
            Prefixed(p, ForksAt(p.node), ParseFrom(nodes, level, input, p.node.Target(), p.end))
  {
    hide ParseFrom, Step, NotOverruled, Deciding;
    InGraph(nodes, level, input, n, i, p);
    AllowedIs(nodes, level, input, n, i, p);
    AtLiteral(nodes, level, input, n, i, SkipSpaces(input, i));
  }

  /** A whole input is parsed along the first path, in the order of children, of all that use all of it. */
  lemma TakesTheFirst(nodes: set<Node>, level: int, input: string, n: Node, path: seq<ParsedNode>)
    requires Closed(nodes) && n in nodes
    ensures var o := ParseFrom(nodes, level, input, n, 0);
            o.cursor == |input| && path == o.nodes <==>
            && UsesAll(nodes, level, input, n, path)
            && forall q | UsesAll(nodes, level, input, n, q) :: path == q || Precedes(nodes, n, path, q)
  {
    hide ParseFrom, Path, Precedes;
    var o := ParseFrom(nodes, level, input, n, 0);
    ParseIsSound(nodes, level, input, n, 0);
    if o.cursor == |input| {
      assert UsesAll(nodes, level, input, n, o.nodes);
      forall q | UsesAll(nodes, level, input, n, q) ensures o.nodes == q || Precedes(nodes, n, o.nodes, q) {
        FirstOfFurthest(nodes, level, input, n, 0, q);
      }
    }
    if && UsesAll(nodes, level, input, n, path)
       && forall q | UsesAll(nodes, level, input, n, q) :: path == q || Precedes(nodes, n, path, q)
    {
      Furthest(nodes, level, input, n, 0, path);
      if Precedes(nodes, n, path, o.nodes) { PrecedesIsAsymmetric(nodes, n, path, o.nodes); }
    }
  }

  /**
   A parse finds a command exactly when the first of the paths that use all input leads to
   a node that runs one; then it is that command.
   */
  lemma FindsCommandIff(nodes: set<Node>, level: int, input: string, n: Node, cmd: Command)
    requires Closed(nodes) && n in nodes
    ensures ParseFrom(nodes, level, input, n, 0).command == Some(cmd) <==>
            exists path ::
              && UsesAll(nodes, level, input, n, path) && EndNode(n, path).Run == Some(cmd)
              && forall q | UsesAll(nodes, level, input, n, q) :: path == q || Precedes(nodes, n, path, q)
  {
    hide ParseFrom, Path, Precedes, UsesAll;
    var o := ParseFrom(nodes, level, input, n, 0);
    ParseIsSound(nodes, level, input, n, 0);
    TakesTheFirst(nodes, level, input, n, o.nodes);
    forall path |
      && UsesAll(nodes, level, input, n, path)
      && forall q | UsesAll(nodes, level, input, n, q) :: path == q || Precedes(nodes, n, path, q)
      ensures path == o.nodes && o.cursor == |input|
    {
      TakesTheFirst(nodes, level, input, n, path);
    }
  }

  // ----- bindings

  /** What a step binds: an argument the value its parser gave, a literal its name under its binding key. */
  predicate Binds(p: ParsedNode, input: string, name: string, value: Value)
    reads p.node
    requires p.start <= |input|
  {
    if p.node.Kind == LiteralNode then p.node.BindKey != "" && name == p.node.BindKey && value == Word(p.node.Name)
    else name == p.node.Name && p.node.Parser != null && p.node.Parser.Parse(input, p.start) == Parsed(value, p.end)
  }

  /** The bindings of a path's own steps, in order, on top of `m`. */
  ghost predicate BoundBy(path: seq<ParsedNode>, input: string, m: Args, m': Args)
    reads set p | p in path :: p.node
    decreases |path|
  {
    if path == [] then m' == m
    else
      && path[0].start <= |input|
      && if exists name, value :: Binds(path[0], input, name, value)
         then exists name, value ::
           Binds(path[0], input, name, value) && BoundBy(path[1..], input, m[name := value], m')
         else BoundBy(path[1..], input, m, m')
  }

  lemma BindingBinds(p: ParsedNode, input: string)
    requires p.start <= |input|
    requires p.node.Kind != LiteralNode ==> Takes(p.node, input, p.start, p.end)
    ensures forall name, value ::
              Binds(p, input, name, value) <==> Binding(p.node, input, p.start) == Some((name, value))
  {
  }

  /** Names bound before a parse are bound after it. */
  lemma {:induction false} NamesStay(nodes: set<Node>, level: int, input: string, n: Node, i: nat, m: Args)
    requires Closed(nodes) && n in nodes && i <= |input|
    ensures m.Keys <= ArgsFrom(nodes, level, input, n, i, m).shared.Keys
    ensures m.Keys <= ArgsFrom(nodes, level, input, n, i, m).last.Keys
    decreases |input| - i, 1, 0
  {
    hide ArgsFrom, ArgsTried, ParseFrom, Best, Deciding;
    var start := SkipSpaces(input, i);
    if start == |input| {
      AtEnd(nodes, level, input, n, i);
    } else if Deciding(n, input, start, level) != null {
      var c := Deciding(n, input, start, level);
      AtLiteral(nodes, level, input, n, i, start);
      NamesStay(nodes, level, input, c.Target(), WordEnd(input, start), Bind(m, Binding(c, input, start)));
    } else {
      AtArguments(nodes, level, input, n, i, start);
      ChildrenInside(nodes, n);
      TriedNamesStay(nodes, level, input, n.Children, |n.Children|, start, m);
      assert n.Children[..|n.Children|] == n.Children;
    }
  }

  lemma {:induction false} TriedNamesStay(nodes: set<Node>, level: int, input: string, cs: seq<Node>, k: nat,
                                          start: nat, m: Args)
    requires Closed(nodes) && start < |input| && input[start] != ' ' && k <= |cs|
    requires forall l | 0 <= l < |cs| :: cs[l] in nodes
    ensures m.Keys <= ArgsTried(nodes, level, input, cs[..k], start, m).shared.Keys
    ensures m.Keys <= ArgsTried(nodes, level, input, cs[..k], start, m).last.Keys
    decreases |input| - start, 0, k + 1
  {
    hide ArgsFrom, ArgsTried, ParseFrom, Best, Attempt;
    if k == 0 {
      NoChildren(nodes, level, input, cs, start);
    } else {
      var c := cs[k - 1];
      NextArgs(nodes, level, input, cs, k - 1, start, m);
      TriedNamesStay(nodes, level, input, cs, k - 1, start, m);
      if Candidate(c, level) && ArgumentEnd(c, input, start).Ok? {
        StepsForward(c, input, start);
        NamesStay(nodes, level, input, c.Target(), ArgumentEnd(c, input, start).value,
                  Bind(ArgsTried(nodes, level, input, cs[..k - 1], start, m).shared, Binding(c, input, start)));
      }
    }
  }

  lemma AttemptMeans(nodes: set<Node>, level: int, input: string, c: Node, start: nat)
    requires Closed(nodes) && c in nodes && start < |input| && input[start] != ' '
    ensures c.Target() in nodes
    ensures Attempt(nodes, level, input, c, start).Some? <==>
            Candidate(c, level) && c.Parser != null && ArgumentEnd(c, input, start).Ok?
    ensures c.Parser != null && ArgumentEnd(c, input, start).Ok? ==> ArgumentEnd(c, input, start).value <= |input|
  {
    hide ParseFrom;
  }

  lemma BeforeBest(nodes: set<Node>, level: int, input: string, cs: seq<Node>, b: nat, start: nat)
    requires Closed(nodes) && start < |input| && input[start] != ' ' && b < |cs|
    requires forall l | 0 <= l < |cs| :: cs[l] in nodes
    requires Attempt(nodes, level, input, cs[b], start).Some?
    requires forall j | 0 <= j < b && Attempt(nodes, level, input, cs[j], start).Some? ::
               Attempt(nodes, level, input, cs[j], start).value.cursor
               < Attempt(nodes, level, input, cs[b], start).value.cursor
    ensures var before := Best(nodes, level, input, cs[..b], start);
            before.None? || before.value.cursor < Attempt(nodes, level, input, cs[b], start).value.cursor
  {
    hide Attempt, Best;
    if Best(nodes, level, input, cs[..b], start).Some? {
      var _ := BestIsFirst(nodes, level, input, cs, b, start);
    }
  }

  /** The bindings a parse ends with are those of the best child, entered with what earlier children left. */
  lemma {:induction false} BestArgs(nodes: set<Node>, level: int, input: string, cs: seq<Node>, k: nat, start: nat,
                                    m: Args, b: nat)
    requires Closed(nodes) && start < |input| && input[start] != ' ' && b < k <= |cs|
    requires forall l | 0 <= l < |cs| :: cs[l] in nodes
    requires Attempt(nodes, level, input, cs[b], start).Some?
    requires Best(nodes, level, input, cs[..k], start) == Attempt(nodes, level, input, cs[b], start)
    requires forall j | 0 <= j < b && Attempt(nodes, level, input, cs[j], start).Some? ::
               Attempt(nodes, level, input, cs[j], start).value.cursor
               < Attempt(nodes, level, input, cs[b], start).value.cursor
    ensures Candidate(cs[b], level) && ArgumentEnd(cs[b], input, start).Ok?
    ensures cs[b].Target() in nodes && ArgumentEnd(cs[b], input, start).value <= |input|
    ensures ArgsTried(nodes, level, input, cs[..k], start, m).last
            == ArgsFrom(nodes, level, input, cs[b].Target(), ArgumentEnd(cs[b], input, start).value,
                        Bind(ArgsTried(nodes, level, input, cs[..b], start, m).shared,
                             Binding(cs[b], input, start))).last
    decreases k
  {
    hide ArgsFrom, ArgsTried, ParseFrom, Best, Binding;
    AttemptMeans(nodes, level, input, cs[b], start);
    hide Attempt;
    NextArgs(nodes, level, input, cs, k - 1, start, m);
    NextChild(nodes, level, input, cs, k - 1, start);
    if b == k - 1 {
      BeforeBest(nodes, level, input, cs, b, start);
    } else {
      BestDominates(nodes, level, input, cs, k - 1, b, start);
      AttemptMeans(nodes, level, input, cs[k - 1], start);
      BestArgs(nodes, level, input, cs, k - 1, start, m, b);
    }
  }

  /** An argument child of `n` before `c` that could also be taken at `start`. */
  ghost predicate Rival(n: Node, level: int, input: string, start: nat, j: nat)
    reads n, n.Children
    requires start <= |input|
  {
    j < |n.Children| && n.Children[j].PermissionLevel <= level && exists end :: Takes(n.Children[j], input, start, end)
  }

  /** At every step of the path no earlier argument child could be taken as well. */
  ghost predicate Unrivalled(nodes: set<Node>, level: int, input: string, n: Node, path: seq<ParsedNode>)
    reads nodes
    requires Closed(nodes) && n in nodes
    decreases |path|
  {
    path == [] ||
    (&& path[0].start <= |input| && path[0].node in nodes
     && (path[0].node.Kind == ArgumentNode ==>
           forall j | 0 <= j < IndexOf(n.Children, path[0].node) :: !Rival(n, level, input, path[0].start, j))
     && path[0].node.Target() in nodes
     && Unrivalled(nodes, level, input, path[0].node.Target(), path[1..]))
  }

  /** Children that cannot be taken bind nothing. */
  lemma {:induction false} NothingBound(nodes: set<Node>, level: int, input: string, cs: seq<Node>, k: nat, start: nat,
                                        m: Args)
    requires Closed(nodes) && start < |input| && input[start] != ' ' && k <= |cs|
    requires forall l | 0 <= l < |cs| :: cs[l] in nodes
    requires forall j | 0 <= j < k :: Attempt(nodes, level, input, cs[j], start) == None
    ensures ArgsTried(nodes, level, input, cs[..k], start, m) == Bindings(m, m)
  {
    hide ArgsFrom, ArgsTried, Attempt, Best;
    if k == 0 {
      NoChildren(nodes, level, input, cs, start);
    } else {
      NextArgs(nodes, level, input, cs, k - 1, start, m);
      AttemptMeans(nodes, level, input, cs[k - 1], start);
      NothingBound(nodes, level, input, cs, k - 1, start, m);
    }
  }

  /** A parse that takes no step binds nothing. */
  lemma NoStepsBindNothing(nodes: set<Node>, level: int, input: string, n: Node, i: nat, m: Args)
    requires Closed(nodes) && n in nodes && i <= |input| && ParseFrom(nodes, level, input, n, i).nodes == []
    ensures ArgsFrom(nodes, level, input, n, i, m).last == m
  {
    hide ArgsFrom, ArgsTried, ParseFrom, Best, Deciding, AttemptErrors, Attempt;
    var start := SkipSpaces(input, i);
    if start == |input| {
      AtEnd(nodes, level, input, n, i);
    } else if Deciding(n, input, start, level) != null {
      AtLiteral(nodes, level, input, n, i, start);
    } else {
      AtArguments(nodes, level, input, n, i, start);
      ChildrenInside(nodes, n);
      var cs := n.Children;
      assert cs[..|cs|] == cs;
      if Best(nodes, level, input, cs, start).Some? {
        var b := BestIsFirst(nodes, level, input, cs, |cs|, start);
        AttemptBegins(nodes, level, input, cs[b], start);
      }
      forall j | 0 <= j < |cs| ensures Attempt(nodes, level, input, cs[j], start) == None {
        BestDominates(nodes, level, input, cs, |cs|, j, start);
      }
      NothingBound(nodes, level, input, cs, |cs|, start, m);
    }
  }

  lemma AttemptedIsRival(nodes: set<Node>, level: int, input: string, n: Node, start: nat, j: nat)
    requires Closed(nodes) && n in nodes && start < |input| && input[start] != ' ' && j < |n.Children|
    ensures n.Children[j] in nodes
    ensures Attempt(nodes, level, input, n.Children[j], start).Some? ==> Rival(n, level, input, start, j)
  {
    hide ParseFrom;
    var c := n.Children[j];
    AttemptMeans(nodes, level, input, c, start);
    if Attempt(nodes, level, input, c, start).Some? {
      assert Takes(c, input, start, ArgumentEnd(c, input, start).value);
    }
  }

  lemma NothingLeft(nodes: set<Node>, level: int, input: string, n: Node, i: nat)
    requires Closed(nodes) && n in nodes && i <= |input|
    ensures SkipSpaces(input, i) == |input| ==> ParseFrom(nodes, level, input, n, i).nodes == []
  {
  }

  /**
   The bindings of a parse that takes a step `p` are those from there on, entered with what
   earlier children left, `m'`, and the binding of `p`. Without rivals they left nothing.
   */
  lemma ArgsAfterStep(nodes: set<Node>, level: int, input: string, n: Node, i: nat, m: Args)
    returns (p: ParsedNode, m': Args)
    requires Closed(nodes) && n in nodes && i <= |input| && ParseFrom(nodes, level, input, n, i).nodes != []
    ensures p == ParseFrom(nodes, level, input, n, i).nodes[0]
    ensures p.start < p.end <= |input| && p.node in nodes && p.node.Target() in nodes
    ensures p.node.Kind != LiteralNode ==> Takes(p.node, input, p.start, p.end)
    ensures ParseFrom(nodes, level, input, n, i).nodes
            == [p] + ParseFrom(nodes, level, input, p.node.Target(), p.end).nodes
    ensures ArgsFrom(nodes, level, input, n, i, m).last
            == ArgsFrom(nodes, level, input, p.node.Target(), p.end,
                        Bind(m', Binding(p.node, input, p.start))).last
    ensures (p.node.Kind == ArgumentNode ==>
               forall j | 0 <= j < IndexOf(n.Children, p.node) :: !Rival(n, level, input, p.start, j))
            ==> m' == m
  {
    hide ArgsFrom, ArgsTried, ParseFrom, Best, Deciding, AttemptErrors;
    var start := SkipSpaces(input, i);
    NothingLeft(nodes, level, input, n, i);
    if Deciding(n, input, start, level) != null {
      var c := Deciding(n, input, start, level);
      AtLiteral(nodes, level, input, n, i, start);
      LiteralStep(nodes, level, input, n, i);
      ChildrenInside(nodes, n);
      p, m' := ParsedNode(c, start, WordEnd(input, start)), m;
    } else {
      AtArguments(nodes, level, input, n, i, start);
      ChildrenInside(nodes, n);
      var cs := n.Children;
      assert cs[..|cs|] == cs;
      var b := BestIsFirst(nodes, level, input, cs, |cs|, start);
      BestArgs(nodes, level, input, cs, |cs|, start, m, b);
      p := ParsedNode(cs[b], start, ArgumentEnd(cs[b], input, start).value);
      StepsForward(cs[b], input, start);
      m' := ArgsTried(nodes, level, input, cs[..b], start, m).shared;
      var first := IndexOf(cs, cs[b]);
      if forall j | 0 <= j < first :: !Rival(n, level, input, start, j) {
        assert first == b;
        forall j | 0 <= j < b ensures Attempt(nodes, level, input, cs[j], start) == None {
          AttemptedIsRival(nodes, level, input, n, start, j);
        }
        NothingBound(nodes, level, input, cs, b, start, m);
      }
    }
  }

  /** A child that could be taken has its name bound by the time the later ones are tried. */
  lemma {:induction false} TriedBinds(nodes: set<Node>, level: int, input: string, cs: seq<Node>, k: nat, start: nat,
                                      m: Args, j: nat)
    requires Closed(nodes) && start < |input| && input[start] != ' ' && j < k <= |cs|
    requires forall l | 0 <= l < |cs| :: cs[l] in nodes
    requires Attempt(nodes, level, input, cs[j], start).Some?
    ensures cs[j].Name in ArgsTried(nodes, level, input, cs[..k], start, m).shared
    decreases k
  {
    hide ArgsFrom, ArgsTried, ParseFrom, Best;
    var c := cs[k - 1];
    NextArgs(nodes, level, input, cs, k - 1, start, m);
    AttemptMeans(nodes, level, input, cs[j], start);
    hide Attempt;
    if j < k - 1 { TriedBinds(nodes, level, input, cs, k - 1, start, m, j); }
    if Candidate(c, level) && ArgumentEnd(c, input, start).Ok? {
      StepsForward(c, input, start);
      NamesStay(nodes, level, input, c.Target(), ArgumentEnd(c, input, start).value,
                Bind(ArgsTried(nodes, level, input, cs[..k - 1], start, m).shared, Binding(c, input, start)));
    }
  }

  /** Wherever a rival comes before the argument taken, its name ends up bound, on the path or not. */
  lemma RivalStaysBound(nodes: set<Node>, level: int, input: string, n: Node, i: nat, m: Args, j: nat)
    requires Closed(nodes) && n in nodes && i <= |input| && ParseFrom(nodes, level, input, n, i).nodes != []
    requires var p := ParseFrom(nodes, level, input, n, i).nodes[0];
             p.node.Kind == ArgumentNode && p.start <= |input| && j < IndexOf(n.Children, p.node)
             && Rival(n, level, input, p.start, j)
    ensures n.Children[j].Name in ArgsFrom(nodes, level, input, n, i, m).last
  {
    hide ArgsFrom, ArgsTried, ParseFrom, Best, Deciding, AttemptErrors;
    var start := SkipSpaces(input, i);
    NothingLeft(nodes, level, input, n, i);
    if Deciding(n, input, start, level) != null {
      AtLiteral(nodes, level, input, n, i, start);
      assert false;
    }
    AtArguments(nodes, level, input, n, i, start);
    ChildrenInside(nodes, n);
    var cs := n.Children;
    assert cs[..|cs|] == cs;
    var b := BestIsFirst(nodes, level, input, cs, |cs|, start);
    BestArgs(nodes, level, input, cs, |cs|, start, m, b);
    AttemptMeans(nodes, level, input, cs[j], start);
    TriedBinds(nodes, level, input, cs, b, start, m, j);
    StepsForward(cs[b], input, start);
    NamesStay(nodes, level, input, cs[b].Target(), ArgumentEnd(cs[b], input, start).value,
              Bind(ArgsTried(nodes, level, input, cs[..b], start, m).shared, Binding(cs[b], input, start)));
  }

  /** What the last step of a path binds is among `args`. */
  ghost predicate LastHolds(path: seq<ParsedNode>, input: string, args: Args)
    reads set p | p in path :: p.node
    requires path != []
  {
    var last := path[|path| - 1];
    last.start <= |input| &&
    forall name, value :: Binds(last, input, name, value) ==> name in args && args[name] == value
  }

  /** What the last step of a parse binds is there at the end. */
  lemma {:induction false} LastBinds(nodes: set<Node>, level: int, input: string, n: Node, i: nat, m: Args)
    requires Closed(nodes) && n in nodes && i <= |input| && ParseFrom(nodes, level, input, n, i).nodes != []
    ensures var path := ParseFrom(nodes, level, input, n, i).nodes;
            LastHolds(path, input, ArgsFrom(nodes, level, input, n, i, m).last)
    decreases |ParseFrom(nodes, level, input, n, i).nodes|
  {
    hide ArgsFrom, ParseFrom, Binds, Binding;
    var p, m' := ArgsAfterStep(nodes, level, input, n, i, m);
    var rest := ParseFrom(nodes, level, input, p.node.Target(), p.end).nodes;
    var bound := Bind(m', Binding(p.node, input, p.start));
    if rest == [] {
      NoStepsBindNothing(nodes, level, input, p.node.Target(), p.end, bound);
      BindingBinds(p, input);
    } else {
      LastBinds(nodes, level, input, p.node.Target(), p.end, bound);
    }
  }

  /**
   A parse ends with exactly the bindings of its own path, unless a child it tried before
   the one it took could be taken too.
   */
  lemma {:induction false} OwnBindings(nodes: set<Node>, level: int, input: string, n: Node, i: nat, m: Args)
    requires Closed(nodes) && n in nodes && i <= |input|
    requires Unrivalled(nodes, level, input, n, ParseFrom(nodes, level, input, n, i).nodes)
    ensures BoundBy(ParseFrom(nodes, level, input, n, i).nodes, input, m,
                    ArgsFrom(nodes, level, input, n, i, m).last)
    decreases |ParseFrom(nodes, level, input, n, i).nodes|
  {
    hide ArgsFrom, ParseFrom, Binds, Binding, Rival;
    var path := ParseFrom(nodes, level, input, n, i).nodes;
    if path == [] {
      NoStepsBindNothing(nodes, level, input, n, i, m);
    } else {
      var p, m' := ArgsAfterStep(nodes, level, input, n, i, m);
      assert path[1..] == ParseFrom(nodes, level, input, p.node.Target(), p.end).nodes;
      OwnBindings(nodes, level, input, p.node.Target(), p.end, Bind(m, Binding(p.node, input, p.start)));
      BindingBinds(p, input);
      if Binding(p.node, input, p.start).Some? {
        var b := Binding(p.node, input, p.start).value;
        assert Binds(p, input, b.0, b.1);
      }
    }
  }

  /** With a rival it may have more: the first of two arguments loses on "x y", and its value stays bound. */
  lemma LoserStaysBound(nodes: set<Node>, level: int, n: Node, a: Node, b: Node, va: Value, vb: Value, m: Args)
    requires Closed(nodes) && n in nodes && a in nodes && b in nodes && n.Children == [a, b] && a.Children == []
    requires Candidate(a, level) && Candidate(b, level) && a.Redirect == null && b.Redirect == null
    requires a.Parser != null && a.Parser.Parse("x y", 0) == Parsed(va, 1)
    requires b.Parser != null && b.Parser.Parse("x y", 0) == Parsed(vb, 3)
    ensures ParseFrom(nodes, level, "x y", n, 0).nodes == [ParsedNode(b, 0, 3)]
    ensures ArgsFrom(nodes, level, "x y", n, 0, m).last == m[a.Name := va][b.Name := vb]
  {
    hide ArgsFrom, ArgsTried, ParseFrom, Best, AttemptErrors, Deciding;
    var input, cs := "x y", n.Children;
    assert SkipSpaces(input, 0) == 0 && SkipSpaces(input, 1) == 2 && SkipSpaces(input, 3) == 3;
    DecidingIs(n, input, 0, level);
    DecidingIs(a, input, 2, level);
    assert cs[0] == a && cs[1] == b && cs[..2] == cs;
    AtArguments(nodes, level, input, n, 0, 0);
    AtArguments(nodes, level, input, a, 1, 2);
    NoChildren(nodes, level, input, a.Children, 2);
    assert a.Children[..0] == a.Children;
    NoChildren(nodes, level, input, cs, 0);
    NextArgs(nodes, level, input, cs, 0, 0, m);
    NextArgs(nodes, level, input, cs, 1, 0, m);
    NextChild(nodes, level, input, cs, 0, 0);
    NextChild(nodes, level, input, cs, 1, 0);
    AtEnd(nodes, level, input, b, 3);
  }

  // ----- a limit

  /**
   Reaching furthest is not finding a command: of two arguments that both take the
   whole input, the first is kept even when only the second runs anything.
   */
  lemma FirstOfATieHidesTheCommand(nodes: set<Node>, level: int, input: string, n: Node, a: Node, b: Node)
    requires Closed(nodes) && n in nodes && a in nodes && b in nodes && n.Children == [a, b]
    requires input != [] && input[0] != ' ' && Candidate(a, level) && Candidate(b, level)
    requires ArgumentEnd(a, input, 0) == Ok(|input|) && ArgumentEnd(b, input, 0) == Ok(|input|)
    requires a.Redirect == null && a.Run == None && b.Redirect == null && b.Run != None
    ensures var path := [ParsedNode(b, 0, |input|)];
            UsesAll(nodes, level, input, n, path) && EndNode(n, path).Run != None
    ensures ParseFrom(nodes, level, input, n, 0).cursor == |input|
    ensures ParseFrom(nodes, level, input, n, 0).command == None
  {
    var path := [ParsedNode(b, 0, |input|)];
    assert n.Children[0] == a && n.Children[1] == b;
    assert SkipSpaces(input, 0) == 0 && SkipSpaces(input, |input|) == |input|;
    assert Deciding(n, input, 0, level) == null;
    assert path[1..] == [] && b in n.Children;
    assert Step(nodes, level, input, n, 0, path[0]);
    assert Path(nodes, level, input, b, |input|, []);
    AtArguments(nodes, level, input, n, 0, 0);
    assert [a, b][..1] == [a] && [a, b][..2] == [a, b] && [a, b][..0] == [];
    NextChild(nodes, level, input, n.Children, 0, 0);
    NextChild(nodes, level, input, n.Children, 1, 0);
    AtEnd(nodes, level, input, a, |input|);
    AtEnd(nodes, level, input, b, |input|);
  }
}
