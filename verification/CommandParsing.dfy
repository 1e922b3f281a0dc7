/**
 The backtracking command parser: a literal child decides by itself, argument
 children are tried in turn, and the attempt that reached furthest is kept.
 */
module CommandParsing {
  import opened Wrappers
  import opened Readers
  import opened CommandNodes

  datatype ParsedNode = ParsedNode(node: Node, start: nat, end: nat)

  datatype ParseError = FromParser(at: nat) | ExpectedSeparator(at: nat) | UnknownCommand(at: nat)

  type Args = map<string, Value>

  /** What parsing from a node adds to the result, and where it leaves the cursor. */
  datatype Outcome = Outcome(nodes: seq<ParsedNode>, command: Option<Command>, errors: seq<ParseError>,
                             forks: bool, cursor: nat)

  // ----- one step

  /** The range an argument child takes at `start`, if its parser accepts and a separator follows. */
  function ArgumentEnd(c: Node, input: string, start: nat): Result<nat, ParseError>
    requires c.Parser != null && start <= |input|
  {
    match c.Parser.Parse(input, start)
    case Refused(at) => Err(FromParser(at))
    case Parsed(_, end) =>
      if end < |input| && input[end] != ' ' then Err(ExpectedSeparator(end)) else Ok(end)
  }

  predicate Permitted(c: Node, level: int)
    reads c
  {
    level >= c.PermissionLevel
  }

  /** The literal child that decides at `start`, if there is one. */
  function Deciding(n: Node, input: string, start: nat, level: int): (c: Node?)
    reads n, n.Children
    requires start <= |input|
    ensures c != null ==> c in n.Children && c.Kind == LiteralNode && Permitted(c, level)
  {
    var c := n.FindLiteralChild(input[start..WordEnd(input, start)]);
    if c != null && Permitted(c, level) then c else null
  }

  predicate Candidate(c: Node, level: int)
    reads c
  {
    c.Kind == ArgumentNode && Permitted(c, level)
  }

  /** From a non-space, a step forward consumes at least one byte: the ranges cannot be empty. */
  lemma StepsForward(c: Node, input: string, start: nat)
    requires start < |input| && input[start] != ' '
    ensures WordEnd(input, start) > start
    ensures c.Parser != null && ArgumentEnd(c, input, start).Ok? ==>
            start < ArgumentEnd(c, input, start).value <= |input|
  {
    if c.Parser != null {
      assert Advances(c.Parser.Parse);
    }
  }

  // ----- the parser's meaning

  ghost function Prefixed(p: ParsedNode, fork: bool, o: Outcome): Outcome {
    Outcome([p] + o.nodes, o.command, o.errors, fork || o.forks, o.cursor)
  }

  ghost predicate ForksAt(c: Node)
    reads c
  {
    c.Redirect != null && c.IsFork
  }

  ghost function ParseFrom(nodes: set<Node>, level: int, input: string, n: Node, i: nat): (o: Outcome)
    reads nodes
    requires Closed(nodes) && n in nodes && i <= |input|
    ensures i <= o.cursor <= |input|
    decreases |input| - i, 1, 0
  {
    var start := SkipSpaces(input, i);
    if start == |input| then Outcome([], n.Run, [], false, start)
    else
      var literal := Deciding(n, input, start, level);
      StepsForward(n, input, start);
      if literal != null then
        var end := WordEnd(input, start);
        Prefixed(ParsedNode(literal, start, end), ForksAt(literal),
                 ParseFrom(nodes, level, input, literal.Target(), end))
      else
        var best := Best(nodes, level, input, n.Children, start);
        var errors := AttemptErrors(nodes, level, input, n.Children, start);
        if best.Some? then best.value
        else if errors != [] then Outcome([], None, errors, false, start)
        else Outcome([], None, [UnknownCommand(start)], false, start)
  }

  /** One argument child's attempt, `None` if it does not apply. */
  ghost function Attempt(nodes: set<Node>, level: int, input: string, c: Node, start: nat): (o: Option<Outcome>)
    reads nodes
    requires Closed(nodes) && c in nodes && start < |input| && input[start] != ' '
    ensures o.Some? ==> start < o.value.cursor <= |input|
    decreases |input| - start, 0, 0
  {
    if !Candidate(c, level) then None
    else match ArgumentEnd(c, input, start)
      case Err(_) => None
      case Ok(end) =>
        StepsForward(c, input, start);
        Some(Prefixed(ParsedNode(c, start, end), ForksAt(c), ParseFrom(nodes, level, input, c.Target(), end)))
  }

  /** The attempt of `cs` that got furthest, the first of them on a tie. */
  ghost function Best(nodes: set<Node>, level: int, input: string, cs: seq<Node>, start: nat): (o: Option<Outcome>)
    reads nodes
    requires Closed(nodes) && start < |input| && input[start] != ' '
    requires forall k | 0 <= k < |cs| :: cs[k] in nodes
    ensures o.Some? ==> start < o.value.cursor <= |input|
    decreases |input| - start, 0, |cs| + 1
  {
    if cs == [] then None
    else
      var before := Best(nodes, level, input, cs[..|cs| - 1], start);
      var last := Attempt(nodes, level, input, cs[|cs| - 1], start);
      if last.Some? && (before.None? || last.value.cursor > before.value.cursor) then last else before
  }

  /** The errors of every attempt of `cs`, in order. */
  ghost function AttemptErrors(nodes: set<Node>, level: int, input: string, cs: seq<Node>, start: nat): seq<ParseError>
    reads nodes
    requires Closed(nodes) && start < |input| && input[start] != ' '
    requires forall k | 0 <= k < |cs| :: cs[k] in nodes
    decreases |input| - start, 0, |cs| + 1
  {
    if cs == [] then []
    else
      var c := cs[|cs| - 1];
      AttemptErrors(nodes, level, input, cs[..|cs| - 1], start)
      + (if !Candidate(c, level) then []
         else match ArgumentEnd(c, input, start)
           case Err(e) => [e]
           case Ok(_) => Attempt(nodes, level, input, c, start).value.errors)
  }

  /** What a step binds: an argument its value, a literal its name under its binding key. */
  function Binding(c: Node, input: string, start: nat): Option<(string, Value)>
    reads c
    requires start <= |input|
  {
    if c.Kind == LiteralNode then if c.BindKey == "" then None else Some((c.BindKey, Word(c.Name)))
    else if c.Parser == null then None
    else match c.Parser.Parse(input, start)
      case Refused(_) => None
      case Parsed(v, _) => Some((c.Name, v))
  }

  function Bind(m: Args, b: Option<(string, Value)>): Args {
    if b == None then m else m[b.value.0 := b.value.1]
  }

  /**
   The bindings in two places: `shared` in the map the parse was entered with, and `last`
   in the one it ends with, which is another map once children have been tried.
   */
  datatype Bindings = Bindings(shared: Args, last: Args)

  /** The bindings after parsing from a node with the bindings `m`. */
  ghost function ArgsFrom(nodes: set<Node>, level: int, input: string, n: Node, i: nat, m: Args): Bindings
    reads nodes
    requires Closed(nodes) && n in nodes && i <= |input|
    decreases |input| - i, 1, 0
  {
    var start := SkipSpaces(input, i);
    if start == |input| then Bindings(m, m)
    else
      var literal := Deciding(n, input, start, level);
      StepsForward(n, input, start);
      if literal != null then
        ArgsFrom(nodes, level, input, literal.Target(), WordEnd(input, start), Bind(m, Binding(literal, input, start)))
      else
        var tried := ArgsTried(nodes, level, input, n.Children, start, m);
        Bindings(m, if Best(nodes, level, input, n.Children, start).Some? then tried.last else tried.shared)
  }

  /** The children share one copy of `m`, which each binds into; `last` is what the best of them ended with. */
  ghost function ArgsTried(nodes: set<Node>, level: int, input: string, cs: seq<Node>, start: nat, m: Args): Bindings
    reads nodes
    requires Closed(nodes) && start < |input| && input[start] != ' '
    requires forall k | 0 <= k < |cs| :: cs[k] in nodes
    decreases |input| - start, 0, |cs| + 1
  {
    if cs == [] then Bindings(m, m)
    else
      var c := cs[|cs| - 1];
      var before := ArgsTried(nodes, level, input, cs[..|cs| - 1], start, m);
      if !Candidate(c, level) || ArgumentEnd(c, input, start).Err? then before
      else
        StepsForward(c, input, start);
        var after := ArgsFrom(nodes, level, input, c.Target(), ArgumentEnd(c, input, start).value,
                              Bind(before.shared, Binding(c, input, start)));
        var best, last := Best(nodes, level, input, cs[..|cs| - 1], start), Attempt(nodes, level, input, c, start);
        Bindings(after.shared,
                 if best.None? || last.value.cursor > best.value.cursor then after.last else before.last)
  }

  lemma NextChild(nodes: set<Node>, level: int, input: string, cs: seq<Node>, k: nat, start: nat)
    requires Closed(nodes) && start < |input| && input[start] != ' ' && k < |cs|
    requires forall j | 0 <= j < |cs| :: cs[j] in nodes
    ensures var before, last := Best(nodes, level, input, cs[..k], start), Attempt(nodes, level, input, cs[k], start);
            Best(nodes, level, input, cs[..k + 1], start)
            == if last.Some? && (before.None? || last.value.cursor > before.value.cursor) then last else before
    ensures AttemptErrors(nodes, level, input, cs[..k + 1], start)
            == AttemptErrors(nodes, level, input, cs[..k], start)
               + (if !Candidate(cs[k], level) then []
                  else match ArgumentEnd(cs[k], input, start)
                    case Err(e) => [e]
                    case Ok(_) => Attempt(nodes, level, input, cs[k], start).value.errors)
  {
    assert cs[..k + 1][..k] == cs[..k];
  }

  // ----- the implementation

  /** The bindings of a parse: a reference in the source, so it is one here. */
  class ArgMap {
    var m: Args

    constructor (m: Args)
      ensures this.m == m
    {
      this.m := m;
    }
  }

  class ParsedCommand {
    const Level: int
    var Args: ArgMap
    var Nodes: seq<ParsedNode>
    var Errors: seq<ParseError>
    var Command: Option<Command>
    var Forks: bool

    constructor (level: int)
      ensures Level == level && fresh(Args) && Args.m == map[]
      ensures Nodes == [] && Errors == [] && Command == None && !Forks
    {
      Level := level;
      Args := new ArgMap(map[]);
      Nodes, Errors, Command, Forks := [], [], None, false;
    }
  }

  datatype Snapshot = Snapshot(args: ArgMap, nodes: seq<ParsedNode>, errors: seq<ParseError>,
                               command: Option<Command>, forks: bool, cursor: int)

  /** Copies everything parsing changes, the bindings into a map of their own. */
  method SnapshotResult(result: ParsedCommand, reader: CommandReader) returns (s: Snapshot)
    ensures fresh(s.args) && s.args.m == result.Args.m
    ensures s == Snapshot(s.args, result.Nodes, result.Errors, result.Command, result.Forks, reader.cursor)
  {
    var args := new ArgMap(result.Args.m);
    s := Snapshot(args, result.Nodes, result.Errors, result.Command, result.Forks, reader.cursor);
  }

  /** Puts the snapshot back, its own map included: later bindings are written into the snapshot. */
  method RestoreSnapshot(result: ParsedCommand, reader: CommandReader, s: Snapshot)
    requires s.cursor >= 0
    modifies result, reader
    ensures result.Args == s.args && result.Nodes == s.nodes && result.Errors == s.errors
    ensures result.Command == s.command && result.Forks == s.forks
    ensures reader.cursor == s.cursor
  {
    result.Args := s.args;
    result.Nodes := s.nodes;
    result.Errors := s.errors;
    result.Command := s.command;
    result.Forks := s.forks;
    reader.SetCursor(s.cursor);
  }

  /** The result is what it was with `o` added to it. */
  twostate predicate Adds(result: ParsedCommand, reader: CommandReader, o: Outcome)
    reads result, reader
  {
    && result.Nodes == old(result.Nodes) + o.nodes
    && result.Errors == old(result.Errors) + o.errors
    && result.Command == o.command
    && result.Forks == (old(result.Forks) || o.forks)
    && reader.cursor == o.cursor
  }

  /** Takes one step of a path: records the node and enters what follows it. */
  method Descend(ghost nodes: set<Node>, c: Node, start: nat, reader: CommandReader, result: ParsedCommand)
    requires Closed(nodes) && c in nodes && reader.Valid() && result.Command == None
    requires start < reader.cursor
    modifies reader, result, result.Args
    ensures reader.Valid() && (result.Args == old(result.Args) || fresh(result.Args))
    ensures Adds(result, reader,
                 Prefixed(ParsedNode(c, start, old(reader.cursor)), ForksAt(c),
                          ParseFrom(nodes, result.Level, reader.input, c.Target(), old(reader.cursor))))
    ensures Bindings(old(result.Args).m, result.Args.m)
            == ArgsFrom(nodes, result.Level, reader.input, c.Target(), old(reader.cursor), old(result.Args.m))
    decreases |reader.input| - reader.cursor, 3
  {
    hide ParseFrom, ArgsFrom;
    result.Nodes := result.Nodes + [ParsedNode(c, start, reader.cursor)];
    if c.Redirect != null {
      if c.IsFork {
        result.Forks := true;
      }
      ParseNodes(nodes, c.Redirect, reader, result);
    } else {
      ParseNodes(nodes, c, reader, result);
    }
  }

  /**
   Parses from a node to the end of the input or as far as any attempt gets. The
   nodes, command, errors, forks and cursor are exactly `ParseFrom`'s, and the bindings
   exactly `ArgsFrom`'s, in the map it was entered with and in the one it ends with.
   */
  method ParseNodes(ghost nodes: set<Node>, node: Node, reader: CommandReader, result: ParsedCommand)
    requires Closed(nodes) && node in nodes && reader.Valid() && result.Command == None
    modifies reader, result, result.Args
    ensures reader.Valid() && (result.Args == old(result.Args) || fresh(result.Args))
    ensures Adds(result, reader, ParseFrom(nodes, result.Level, reader.input, node, old(reader.cursor)))
    ensures Bindings(old(result.Args).m, result.Args.m)
            == ArgsFrom(nodes, result.Level, reader.input, node, old(reader.cursor), old(result.Args.m))
    decreases |reader.input| - reader.cursor, 2
  {
    hide ParseFrom, ArgsFrom, Chosen, ChosenArgs, SkipSpaces, WordEnd, Closed, Bind, Binding;
    ChildrenInside(nodes, node);
    ghost var entry := reader.cursor;
    reader.SkipWhitespace();
    if !reader.CanRead() {
      AtEnd(nodes, result.Level, reader.input, node, entry);
      if node.Run != None {
        result.Command := node.Run;
      }
      return;
    }
    var start := reader.cursor;
    StepsForward(node, reader.input, start);
    var token := reader.PeekWord();
    var literal := node.FindLiteralChild(token);
    if literal != null && result.Level >= literal.PermissionLevel {
      AtLiteral(nodes, result.Level, reader.input, node, entry, start);
      LiteralBinding(literal, reader.input, start, result.Args.m);
      var _ := reader.ReadWord();
      if literal.BindKey != "" {
        result.Args.m := result.Args.m[literal.BindKey := Word(literal.Name)];
      }
      Descend(nodes, literal, start, reader, result);
      return;
    }
    AtArguments(nodes, result.Level, reader.input, node, entry, start);
    TryChildren(nodes, node, reader, result);
  }

  lemma LiteralBinding(c: Node, input: string, start: nat, m: Args)
    requires c.Kind == LiteralNode && start <= |input|
    ensures Bind(m, Binding(c, input, start)) == if c.BindKey == "" then m else m[c.BindKey := Word(c.Name)]
  {
  }

  /** A kept snapshot is the baseline with the best attempt's outcome added, or none was kept. */
  ghost predicate Matches(baseline: Snapshot, kept: Snapshot, best: Option<Outcome>) {
    match best
    case None => kept.cursor == -1
    case Some(o) =>
      && kept.nodes == baseline.nodes + o.nodes
      && kept.errors == baseline.errors + o.errors
      && kept.command == o.command
      && kept.forks == (baseline.forks || o.forks)
      && kept.cursor == o.cursor
  }

  lemma AtEnd(nodes: set<Node>, level: int, input: string, n: Node, i: nat)
    requires Closed(nodes) && n in nodes && i <= |input| && SkipSpaces(input, i) == |input|
    ensures ParseFrom(nodes, level, input, n, i) == Outcome([], n.Run, [], false, |input|)
    ensures forall m :: ArgsFrom(nodes, level, input, n, i, m) == Bindings(m, m)
  {
  }

  lemma AtLiteral(nodes: set<Node>, level: int, input: string, n: Node, i: nat, start: nat)
    requires Closed(nodes) && n in nodes && i <= |input| && SkipSpaces(input, i) == start < |input|
    requires Deciding(n, input, start, level) != null
    ensures var c, end := Deciding(n, input, start, level), WordEnd(input, start);
            && start < end && c.Target() in nodes
            && ParseFrom(nodes, level, input, n, i)
               == Prefixed(ParsedNode(c, start, end), ForksAt(c), ParseFrom(nodes, level, input, c.Target(), end))
            && forall m :: ArgsFrom(nodes, level, input, n, i, m)
                           == ArgsFrom(nodes, level, input, c.Target(), end, Bind(m, Binding(c, input, start)))
  {
    StepsForward(n, input, start);
  }

  lemma AtArguments(nodes: set<Node>, level: int, input: string, n: Node, i: nat, start: nat)
    requires Closed(nodes) && n in nodes && i <= |input| && SkipSpaces(input, i) == start < |input|
    requires Deciding(n, input, start, level) == null
    ensures ParseFrom(nodes, level, input, n, i) == Chosen(nodes, level, input, n.Children, start)
    ensures forall m :: ArgsFrom(nodes, level, input, n, i, m)
                        == Bindings(m, ChosenArgs(nodes, level, input, n.Children, start, m))
  {
  }

  ghost function ChosenArgs(nodes: set<Node>, level: int, input: string, cs: seq<Node>, start: nat, m: Args): Args
    reads nodes
    requires Closed(nodes) && start < |input| && input[start] != ' '
    requires forall k | 0 <= k < |cs| :: cs[k] in nodes
  {
    var tried := ArgsTried(nodes, level, input, cs, start, m);
    if Best(nodes, level, input, cs, start).Some? then tried.last else tried.shared
  }

  /** What one more child does to the bindings. */
  lemma NextArgs(nodes: set<Node>, level: int, input: string, cs: seq<Node>, k: nat, start: nat, m: Args)
    requires Closed(nodes) && start < |input| && input[start] != ' ' && k < |cs|
    requires forall j | 0 <= j < |cs| :: cs[j] in nodes
    ensures var c, before := cs[k], ArgsTried(nodes, level, input, cs[..k], start, m);
            if !Candidate(c, level) || ArgumentEnd(c, input, start).Err?
            then ArgsTried(nodes, level, input, cs[..k + 1], start, m) == before
            else
              && ArgumentEnd(c, input, start).value <= |input| && c.Target() in nodes
              && Attempt(nodes, level, input, c, start).Some?
              && var best, last := Best(nodes, level, input, cs[..k], start), Attempt(nodes, level, input, c, start);
                 var after := ArgsFrom(nodes, level, input, c.Target(), ArgumentEnd(c, input, start).value,
                                       Bind(before.shared, Binding(c, input, start)));
                 ArgsTried(nodes, level, input, cs[..k + 1], start, m)
                 == Bindings(after.shared,
                             if best.None? || last.value.cursor > best.value.cursor then after.last else before.last)
  {
    hide ArgsFrom, ParseFrom, Best;
    assert cs[..k + 1][..k] == cs[..k];
  }

  /** What a node without a deciding literal makes of its argument children. */
  ghost function Chosen(nodes: set<Node>, level: int, input: string, cs: seq<Node>, start: nat): (o: Outcome)
    reads nodes
    requires Closed(nodes) && start < |input| && input[start] != ' '
    requires forall k | 0 <= k < |cs| :: cs[k] in nodes
    ensures start <= o.cursor <= |input|
  {
    var best := Best(nodes, level, input, cs, start);
    var errors := AttemptErrors(nodes, level, input, cs, start);
    if best.Some? then best.value
    else Outcome([], None, if errors != [] then errors else [UnknownCommand(start)], false, start)
  }

  /**
   What trying `c` came to: a snapshot matching its attempt, the errors it adds, and the
   bindings, in the shared map from `before` to `shared` and in the snapshot's own, `last`.
   */
  ghost predicate Tried(nodes: set<Node>, level: int, input: string, c: Node, start: nat, baseline: Snapshot,
                        candidate: Option<Snapshot>, errors: seq<ParseError>, before: Args, shared: Args, last: Args)
    reads nodes
    requires Closed(nodes) && c in nodes && start < |input| && input[start] != ' ' && Candidate(c, level)
  {
    var attempt := Attempt(nodes, level, input, c, start);
    && candidate.Some? == attempt.Some?
    && (candidate.Some? ==> Matches(baseline, candidate.value, attempt))
    && (match ArgumentEnd(c, input, start)
        case Err(e) => errors == [e] && shared == before
        case Ok(end) =>
          && attempt.Some? && errors == attempt.value.errors && end <= |input| && c.Target() in nodes
          && Bindings(shared, last)
             == ArgsFrom(nodes, level, input, c.Target(), end, Bind(before, Binding(c, input, start))))
  }

  lemma NotTaken(nodes: set<Node>, level: int, input: string, c: Node, start: nat, baseline: Snapshot, m: Args)
    requires Closed(nodes) && c in nodes && start < |input| && input[start] != ' ' && Candidate(c, level)
    requires ArgumentEnd(c, input, start).Err?
    ensures Tried(nodes, level, input, c, start, baseline, None, [ArgumentEnd(c, input, start).error], m, m, map[])
  {
  }

  lemma Taken(nodes: set<Node>, level: int, input: string, c: Node, start: nat, end: nat, baseline: Snapshot,
              snapshot: Snapshot, m: Args, shared: Args)
    requires Closed(nodes) && c in nodes && start < |input| && input[start] != ' ' && Candidate(c, level)
    requires ArgumentEnd(c, input, start) == Ok(end) && end <= |input| && c.Target() in nodes
    requires baseline.command == None
    requires var o := Prefixed(ParsedNode(c, start, end), ForksAt(c), ParseFrom(nodes, level, input, c.Target(), end));
             && snapshot.nodes == baseline.nodes + o.nodes && snapshot.errors == baseline.errors + o.errors
             && snapshot.command == o.command && snapshot.forks == (baseline.forks || o.forks)
             && snapshot.cursor == o.cursor
    requires snapshot.args.m == ArgsFrom(nodes, level, input, c.Target(), end, Bind(m, Binding(c, input, start))).last
    requires shared == ArgsFrom(nodes, level, input, c.Target(), end, Bind(m, Binding(c, input, start))).shared
    ensures Tried(nodes, level, input, c, start, baseline, Some(snapshot), snapshot.errors[|baseline.errors|..],
                  m, shared, snapshot.args.m)
  {
    hide ParseFrom, ArgsFrom;
  }

  /** One child's attempt from the baseline: the errors it adds, and a snapshot if it parsed. */
  method TryChild(ghost nodes: set<Node>, child: Node, start: nat, baseline: Snapshot,
                  reader: CommandReader, result: ParsedCommand)
    returns (candidate: Option<Snapshot>, errors: seq<ParseError>)
    requires Closed(nodes) && child in nodes && Candidate(child, result.Level)
    requires start < |reader.input| && reader.input[start] != ' '
    requires baseline.cursor >= 0 && baseline.command == None
    modifies reader, result, baseline.args
    ensures result.Args == baseline.args || fresh(result.Args)
    ensures candidate.Some? ==> fresh(candidate.value.args)
    ensures Tried(nodes, result.Level, reader.input, child, start, baseline, candidate, errors,
                  old(baseline.args.m), baseline.args.m, if candidate.Some? then candidate.value.args.m else map[])
    decreases |reader.input| - start, 0
  {
    hide ParseFrom, ArgsFrom, Best, AttemptErrors, Attempt, Tried, Matches;
    StepsForward(child, reader.input, start);
    ghost var m := baseline.args.m;
    RestoreSnapshot(result, reader, baseline);
    reader.SetCursor(start);
    var verdict := child.Parser.Parse(reader.input, reader.cursor);
    if ArgumentEnd(child, reader.input, start).Err? {
      NotTaken(nodes, result.Level, reader.input, child, start, baseline, m);
    }
    if verdict.Refused? {
      return None, [FromParser(verdict.at)];
    }
    reader.SetCursor(verdict.end);
    if reader.CanRead() && reader.Peek() != ' ' {
      return None, [ExpectedSeparator(reader.cursor)];
    }
    result.Args.m := result.Args.m[child.Name := verdict.value];
    Descend(nodes, child, start, reader, result);
    var snapshot := SnapshotResult(result, reader);
    Taken(nodes, result.Level, reader.input, child, start, verdict.end, baseline, snapshot, m, baseline.args.m);
    return Some(snapshot), snapshot.errors[|baseline.errors|..];
  }

  /** After the first `k` children: the best snapshot, the errors, and the bindings in the shared map and the best's. */
  ghost predicate TriedSoFar(nodes: set<Node>, level: int, input: string, cs: seq<Node>, k: nat, start: nat, m: Args,
                             baseline: Snapshot, best: Snapshot, errors: seq<ParseError>, shared: Args, last: Args)
    reads nodes
    requires Closed(nodes) && start < |input| && input[start] != ' ' && k <= |cs|
    requires forall j | 0 <= j < |cs| :: cs[j] in nodes
  {
    && Matches(baseline, best, Best(nodes, level, input, cs[..k], start))
    && errors == AttemptErrors(nodes, level, input, cs[..k], start)
    && shared == ArgsTried(nodes, level, input, cs[..k], start, m).shared
    && (best.cursor >= 0 ==> last == ArgsTried(nodes, level, input, cs[..k], start, m).last)
  }

  lemma NotTried(nodes: set<Node>, level: int, input: string, cs: seq<Node>, k: nat, start: nat, m: Args,
                 baseline: Snapshot, best: Snapshot, errors: seq<ParseError>, shared: Args, last: Args)
    requires Closed(nodes) && start < |input| && input[start] != ' ' && k < |cs|
    requires forall j | 0 <= j < |cs| :: cs[j] in nodes
    requires TriedSoFar(nodes, level, input, cs, k, start, m, baseline, best, errors, shared, last)
    requires !Candidate(cs[k], level)
    ensures TriedSoFar(nodes, level, input, cs, k + 1, start, m, baseline, best, errors, shared, last)
  {
    hide ArgsTried, Attempt, Best, AttemptErrors;
    NextChild(nodes, level, input, cs, k, start);
    NextArgs(nodes, level, input, cs, k, start, m);
    NotACandidate(nodes, level, input, cs[k], start);
    assert errors + [] == errors;
  }

  lemma TriedOne(nodes: set<Node>, level: int, input: string, cs: seq<Node>, k: nat, start: nat, m: Args,
                 baseline: Snapshot, best: Snapshot, errors: seq<ParseError>, shared: Args, last: Args,
                 candidate: Option<Snapshot>, more: seq<ParseError>, shared': Args, last': Args)
    requires Closed(nodes) && start < |input| && input[start] != ' ' && k < |cs|
    requires forall j | 0 <= j < |cs| :: cs[j] in nodes
    requires TriedSoFar(nodes, level, input, cs, k, start, m, baseline, best, errors, shared, last)
    requires Candidate(cs[k], level)
    requires Tried(nodes, level, input, cs[k], start, baseline, candidate, more, shared, shared', last')
    ensures var better := candidate.Some? && (best.cursor < 0 || candidate.value.cursor > best.cursor);
            TriedSoFar(nodes, level, input, cs, k + 1, start, m, baseline, if better then candidate.value else best,
                       errors + more, shared', if better then last' else last)
  {
    hide ArgsTried, ArgsFrom, ParseFrom, Best, AttemptErrors, ArgumentEnd, Bind, Binding;
    NextChild(nodes, level, input, cs, k, start);
    NextArgs(nodes, level, input, cs, k, start, m);
  }

  /** Before any child nothing is kept, and after all of them what is kept is the outcome. */
  lemma NothingTried(nodes: set<Node>, level: int, input: string, cs: seq<Node>, start: nat, m: Args,
                     baseline: Snapshot, best: Snapshot)
    requires Closed(nodes) && start < |input| && input[start] != ' '
    requires (forall j | 0 <= j < |cs| :: cs[j] in nodes) && best.cursor == -1
    ensures TriedSoFar(nodes, level, input, cs, 0, start, m, baseline, best, [], m, map[])
  {
    NoChildren(nodes, level, input, cs, start);
  }

  lemma AllTried(nodes: set<Node>, level: int, input: string, cs: seq<Node>, start: nat, m: Args,
                 baseline: Snapshot, best: Snapshot, errors: seq<ParseError>, shared: Args, last: Args)
    requires Closed(nodes) && start < |input| && input[start] != ' '
    requires forall j | 0 <= j < |cs| :: cs[j] in nodes
    requires TriedSoFar(nodes, level, input, cs, |cs|, start, m, baseline, best, errors, shared, last)
    ensures var o := Chosen(nodes, level, input, cs, start);
            if best.cursor >= 0
            then Matches(baseline, best, Some(o)) && ChosenArgs(nodes, level, input, cs, start, m) == last
            else o == Outcome([], None, if errors != [] then errors else [UnknownCommand(start)], false, start)
                 && ChosenArgs(nodes, level, input, cs, start, m) == shared
  {
    hide ArgsTried, Best, AttemptErrors;
    assert cs[..|cs|] == cs;
  }

  method TryChildren(ghost nodes: set<Node>, node: Node, reader: CommandReader, result: ParsedCommand)
    requires Closed(nodes) && node in nodes && reader.Valid() && result.Command == None
    requires reader.CanRead() && reader.Peek() != ' '
    modifies reader, result
    ensures reader.Valid() && fresh(result.Args)
    ensures Adds(result, reader, Chosen(nodes, result.Level, reader.input, node.Children, old(reader.cursor)))
    ensures old(result.Args.m) == old(result.Args).m
    ensures result.Args.m == ChosenArgs(nodes, result.Level, reader.input, node.Children, old(reader.cursor),
                                        old(result.Args.m))
    decreases |reader.input| - reader.cursor, 1
  {
    hide ParseFrom, ArgsFrom, ArgsTried, Attempt, Best, AttemptErrors, ArgumentEnd, Closed, Bind, Binding;
    hide Chosen, ChosenArgs, TriedSoFar, Tried;
    ChildrenInside(nodes, node);
    var start := reader.cursor;
    ghost var input, level, cs, m := reader.input, result.Level, node.Children, result.Args.m;
    var baseline := SnapshotResult(result, reader);
    var bestSnapshot := baseline.(cursor := -1);
    var attemptErrors := [];
    NothingTried(nodes, level, input, cs, start, m, baseline, bestSnapshot);
    ghost var args := map[];
    for k := 0 to |node.Children|
      invariant Closed(nodes) && node.Children == cs
      invariant TriedSoFar(nodes, level, input, cs, k, start, m, baseline, bestSnapshot, attemptErrors,
                           baseline.args.m, args)
      invariant bestSnapshot.cursor >= 0 ==> args == bestSnapshot.args.m
      invariant fresh(baseline.args) && fresh(bestSnapshot.args)
      invariant bestSnapshot.cursor >= 0 ==> bestSnapshot.args != baseline.args
      invariant old(result.Args).m == old(result.Args.m)
    {
      var child := node.Children[k];
      if child.Kind != ArgumentNode || result.Level < child.PermissionLevel {
        NotTried(nodes, level, input, cs, k, start, m, baseline, bestSnapshot, attemptErrors, baseline.args.m, args);
        continue;
      }
      ghost var shared := baseline.args.m;
      var candidate, errors := TryChild(nodes, child, start, baseline, reader, result);
      ghost var last := if candidate.Some? then candidate.value.args.m else map[];
      TriedOne(nodes, level, input, cs, k, start, m, baseline, bestSnapshot, attemptErrors, shared, args,
               candidate, errors, baseline.args.m, last);
      attemptErrors := attemptErrors + errors;
      if candidate.Some? && (bestSnapshot.cursor < 0 || candidate.value.cursor > bestSnapshot.cursor) {
        bestSnapshot := candidate.value;
        args := last;
      }
    }
    AllTried(nodes, level, input, cs, start, m, baseline, bestSnapshot, attemptErrors, baseline.args.m, args);
    if bestSnapshot.cursor >= 0 {
      RestoreSnapshot(result, reader, bestSnapshot);
      return;
    }
    RestoreSnapshot(result, reader, baseline);
    if |attemptErrors| > 0 {
      result.Errors := result.Errors + attemptErrors;
      return;
    }
    result.Errors := result.Errors + [UnknownCommand(reader.cursor)];
  }

  lemma ChildrenInside(nodes: set<Node>, n: Node)
    requires Closed(nodes) && n in nodes
    ensures forall k | 0 <= k < |n.Children| :: n.Children[k] in nodes
  {
  }

  lemma NoChildren(nodes: set<Node>, level: int, input: string, cs: seq<Node>, start: nat)
    requires Closed(nodes) && start < |input| && input[start] != ' '
    ensures Best(nodes, level, input, cs[..0], start) == None
    ensures AttemptErrors(nodes, level, input, cs[..0], start) == []
    ensures forall m :: ArgsTried(nodes, level, input, cs[..0], start, m) == Bindings(m, m)
  {
  }

  lemma NotACandidate(nodes: set<Node>, level: int, input: string, c: Node, start: nat)
    requires Closed(nodes) && c in nodes && start < |input| && input[start] != ' ' && !Candidate(c, level)
    ensures Attempt(nodes, level, input, c, start) == None
  {
  }

  method Parse(ghost nodes: set<Node>, root: Node, level: int, input: string) returns (result: ParsedCommand,
               reader: CommandReader)
    requires Closed(nodes) && root in nodes
    ensures fresh(result) && fresh(reader) && reader.Valid() && reader.input == input && result.Level == level
    ensures Outcome(result.Nodes, result.Command, result.Errors, result.Forks, reader.cursor)
            == ParseFrom(nodes, level, input, root, 0)
    ensures result.Args.m == ArgsFrom(nodes, level, input, root, 0, map[]).last
  {
    reader := new CommandReader(input);
    result := new ParsedCommand(level);
    ParseNodes(nodes, root, reader, result);
  }
}
