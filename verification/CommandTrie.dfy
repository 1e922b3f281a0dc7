/**
 What registering a builder means: a table from paths of keys to nodes, which every leaf
 shape extends by its own path, or which refuses it.
 */
module CommandTrie {
  import opened Wrappers
  import opened CommandNodes
  import opened LeafShapes

  /** What tells siblings apart. */
  datatype Key = LiteralKey(name: string) | ArgumentKey(name: string)

  function KeyOf(n: Node): Key {
    if n.Kind == ArgumentNode then ArgumentKey(n.Name) else LiteralKey(n.Name)
  }

  function StepKey(s: ShapeStep): Key {
    match s
    case StepArgument(name, _) => ArgumentKey(name)
    case _ => LiteralKey(s.name)
  }

  function Keys(steps: Shape): (ks: seq<Key>)
    ensures |ks| == |steps| && forall i | 0 <= i < |ks| :: ks[i] == StepKey(steps[i])
  {
    seq(|steps|, i requires 0 <= i < |steps| => StepKey(steps[i]))
  }

  /** Why a registration is refused. */
  datatype Refusal =
    | BadAlias | AliasIsRoot | AliasTaken | WrongNumberOfCommands
    | AnonymousChoice | BindKeyConflict | ParserConflict | AlreadyExecutes

  predicate IsLiteralName(s: string) {
    s != "" && forall c | c in s ::
      'a' <= c <= 'z' || 'A' <= c <= 'Z' || '0' <= c <= '9' || c == '_' || c == '-'
  }

  predicate StepInstallable(step: ShapeStep, parsers: seq<ArgumentParser>) {
    !step.StepChoice? && (step.StepArgument? ==> step.parserIdx < |parsers|)
  }

  predicate Installable(steps: Shape, parsers: seq<ArgumentParser>) {
    forall i | 0 <= i < |steps| :: StepInstallable(steps[i], parsers)
  }

  /** What matters of the node at a path. */
  datatype Info = Info(bindKey: string, parser: ArgumentParser?, run: Option<(Command, int)>, redirect: Node?)

  type Trie = map<seq<Key>, Info>

  function Find(t: Trie, p: seq<Key>): Option<Info> {
    if p in t then Some(t[p]) else None
  }

  /** The node a step shares or adds; a literal binds one name only, an argument keeps its parser. */
  function Touch(there: Option<Info>, step: ShapeStep, parsers: seq<ArgumentParser>): Result<Info, Refusal>
    requires StepInstallable(step, parsers)
  {
    match step
    case StepArgument(_, i) =>
      if there == None then Ok(Info("", parsers[i], None, null))
      else if there.value.parser != parsers[i] then Err(ParserConflict)
      else Ok(there.value)
    case StepLiteral(_, bindKey) =>
      if there == None then Ok(Info(bindKey, null, None, null))
      else if bindKey == "" then Ok(there.value)
      else if there.value.bindKey != "" && there.value.bindKey != bindKey then Err(BindKeyConflict)
      else Ok(there.value.(bindKey := bindKey))
  }

  /** The nodes of a shape, below a path. */
  function Insert(t: Trie, up: seq<Key>, steps: Shape, parsers: seq<ArgumentParser>): Result<Trie, Refusal>
    requires Installable(steps, parsers)
    decreases |steps|
  {
    if steps == [] then Ok(t)
    else
      var p := up + [StepKey(steps[0])];
      match Touch(Find(t, p), steps[0], parsers)
      case Err(e) => Err(e)
      case Ok(info) => Insert(t[p := info], p, steps[1..], parsers)
  }

  lemma InsertNext(t: Trie, path: seq<Key>, steps: Shape, parsers: seq<ArgumentParser>, i: nat)
    requires Installable(steps, parsers) && i < |steps|
    ensures Installable(steps[i..], parsers) && Installable(steps[i + 1..], parsers)
    ensures var p := path + [StepKey(steps[i])];
            Insert(t, path, steps[i..], parsers) ==
            match Touch(Find(t, p), steps[i], parsers)
            case Err(e) => Err(e)
            case Ok(info) => Insert(t[p := info], p, steps[i + 1..], parsers)
  {
    assert steps[i..][0] == steps[i] && steps[i..][1..] == steps[i + 1..];
  }

  lemma InstallableAt(steps: Shape, parsers: seq<ArgumentParser>, i: nat)
    requires Installable(steps, parsers) && i < |steps|
    ensures StepInstallable(steps[i], parsers)
  {
  }

  lemma InsertNone(t: Trie, path: seq<Key>, steps: Shape, parsers: seq<ArgumentParser>)
    requires Installable(steps, parsers) && steps == []
    ensures Insert(t, path, steps, parsers) == Ok(t)
  {
  }

  lemma KeysNext(up: seq<Key>, steps: Shape, i: nat)
    requires i < |steps|
    ensures up + Keys(steps)[..i + 1] == up + Keys(steps)[..i] + [StepKey(steps[i])]
  {
  }

  /** The nodes of a shape with its command at the end; a shape without steps gets none. */
  function Register(t: Trie, up: seq<Key>, steps: Shape, parsers: seq<ArgumentParser>, cmd: Command,
                    perm: int): Result<Trie, Refusal>
    requires Installable(steps, parsers)
  {
    match Insert(t, up, steps, parsers)
    case Err(e) => Err(e)
    case Ok(t') =>
      var p := up + Keys(steps);
      if steps == [] || p !in t' then Ok(t')
      else if t'[p].run != None then Err(AlreadyExecutes)
      else Ok(t'[p := t'[p].(run := Some((cmd, perm)))])
  }

  /** The command of every shape, or one per shape. */
  datatype Runs = Single(cmd: Command) | Each(cmds: seq<Command>)

  datatype Builder =
    Builder(tokens: seq<Token>, parsers: seq<ArgumentParser>, aliases: seq<string>, perm: int, runs: Runs)

  /** What the constructor of a builder has already checked. */
  predicate WellBuilt(b: Builder) {
    b.tokens != [] && b.tokens[0].TokLiteral? && |b.parsers| == ParsersBefore(b.tokens, |b.tokens|)
  }

  function RootPath(b: Builder): seq<Key>
    requires WellBuilt(b)
  {
    [LiteralKey(b.tokens[0].name)]
  }

  function CommandsOf(b: Builder): seq<Command> {
    match b.runs
    case Single(cmd) => seq(|LeafShapesOf(b.tokens)|, _ => cmd)
    case Each(cmds) => cmds
  }

  lemma {:induction false} StepsInstallable(b: Builder, n: nat)
    requires WellBuilt(b) && n <= |b.tokens|
    ensures forall s | s in Head(b.tokens, n) + Optionals(b.tokens, n) ::
              s.StepArgument? ==> s.parserIdx < ParsersBefore(b.tokens, n)
    ensures ParsersBefore(b.tokens, n) <= |b.parsers|
    decreases |b.tokens| - n
  {
    if n > 1 { ArgumentsBefore(b.tokens, n - 1); }
    if n == |b.tokens| {
    } else {
      StepsInstallable(b, n + 1);
    }
    ArgumentsBefore(b.tokens, n);
  }

  lemma {:induction false} ArgumentsBefore(tokens: seq<Token>, n: nat)
    requires n <= |tokens|
    ensures forall s | s in Head(tokens, n) + Optionals(tokens, n) :: s.StepArgument? ==>
            s.parserIdx < ParsersBefore(tokens, n)
  {
    if n <= 1 {
    } else {
      ArgumentsBefore(tokens, n - 1);
    }
  }

  /** Every leaf shape is free of choices and refers to parsers that were given. */
  lemma ShapesInstallable(b: Builder)
    requires WellBuilt(b)
    ensures forall i | 0 <= i < |LeafShapesOf(b.tokens)| :: Installable(LeafShapesOf(b.tokens)[i], b.parsers)
  {
    hide LeafShapesOf;
    var tokens, n := b.tokens, |b.tokens|;
    var head, optionals := Head(tokens, n), Optionals(tokens, n);
    StepsInstallable(b, n);
    StepsRefer(tokens, n);
    forall i | 0 <= i < |LeafShapesOf(tokens)|
      ensures Installable(LeafShapesOf(tokens)[i], b.parsers)
    {
      var sh := LeafShapesOf(tokens)[i];
      LeafShapesAre(tokens, sh);
      forall k | 0 <= k < |sh|
        ensures StepInstallable(sh[k], b.parsers)
      {
        if k < |head| {
          assert head[k] in head + optionals;
        } else {
          assert optionals[k - |head|] in head + optionals;
        }
      }
    }
  }

  // ----- what a registration means

  /** Whether the step cannot share the node already there. */
  predicate Clashes(there: Info, step: ShapeStep, parsers: seq<ArgumentParser>)
    requires StepInstallable(step, parsers)
  {
    match step
    case StepArgument(_, i) => there.parser != parsers[i]
    case StepLiteral(_, bindKey) => bindKey != "" && there.bindKey != "" && there.bindKey != bindKey
  }

  /** The path of the first `n` steps. */
  function PathOf(up: seq<Key>, steps: Shape, n: nat): (p: seq<Key>)
    requires n <= |steps|
    ensures |p| == |up| + n
  {
    up + Keys(steps)[..n]
  }

  predicate ClashesAt(t: Trie, up: seq<Key>, steps: Shape, parsers: seq<ArgumentParser>, i: nat)
    requires i < |steps| && StepInstallable(steps[i], parsers)
  {
    PathOf(up, steps, i + 1) in t && Clashes(t[PathOf(up, steps, i + 1)], steps[i], parsers)
  }

  lemma PathShift(up: seq<Key>, steps: Shape, n: nat)
    requires n < |steps|
    ensures PathOf(up, steps, n + 1) == PathOf(up + [StepKey(steps[0])], steps[1..], n)
  {
    var k, first, more := Keys(steps), StepKey(steps[0]), Keys(steps[1..]);
    hide Keys;
    assert k[..n + 1] == [first] + more[..n];
    Regroup(up, [first], more[..n]);
  }

  lemma Regroup<T>(a: seq<T>, b: seq<T>, c: seq<T>)
    ensures a + (b + c) == a + b + c
  {
  }

  lemma FirstPath(up: seq<Key>, steps: Shape)
    requires steps != []
    ensures PathOf(up, steps, 1) == up + [StepKey(steps[0])]
  {
    assert Keys(steps)[..1] == [StepKey(steps[0])];
  }

  lemma {:induction false} InsertRefuses(t: Trie, up: seq<Key>, steps: Shape, parsers: seq<ArgumentParser>)
    requires Installable(steps, parsers)
    ensures Insert(t, up, steps, parsers).Err? <==> exists i | 0 <= i < |steps| :: ClashesAt(t, up, steps, parsers, i)
    decreases |steps|
  {
    if steps == [] {
    } else {
      var p := up + [StepKey(steps[0])];
      FirstPath(up, steps);
      assert ClashesAt(t, up, steps, parsers, 0) <==> Touch(Find(t, p), steps[0], parsers).Err?;
      if Touch(Find(t, p), steps[0], parsers).Ok? {
        var t' := t[p := Touch(Find(t, p), steps[0], parsers).value];
        InsertRefuses(t', p, steps[1..], parsers);
        forall i | 0 < i < |steps|
          ensures ClashesAt(t, up, steps, parsers, i) <==> ClashesAt(t', p, steps[1..], parsers, i - 1)
        {
          PathShift(up, steps, i);
          assert |PathOf(up, steps, i + 1)| > |p|;
        }
        if exists i | 0 <= i < |steps[1..]| :: ClashesAt(t', p, steps[1..], parsers, i) {
          var i :| 0 <= i < |steps[1..]| && ClashesAt(t', p, steps[1..], parsers, i);
          assert ClashesAt(t, up, steps, parsers, i + 1);
        }
      }
    }
  }

  /**
   A shape is refused exactly when one of its nodes is already there and cannot be shared:
   an argument with another parser, or a choice's literal that binds another name.
   */
  lemma RefusedIffClash(t: Trie, up: seq<Key>, steps: Shape, parsers: seq<ArgumentParser>)
    requires Installable(steps, parsers)
    ensures Insert(t, up, steps, parsers).Err? <==>
            exists i | 0 <= i < |steps| && PathOf(up, steps, i + 1) in t ::
              var there := t[PathOf(up, steps, i + 1)];
              (steps[i].StepArgument? && there.parser != parsers[steps[i].parserIdx]) ||
              (steps[i].StepLiteral? && steps[i].bindKey != "" && there.bindKey !in {"", steps[i].bindKey})
  {
    hide Insert, PathOf;
    InsertRefuses(t, up, steps, parsers);
    forall i | 0 <= i < |steps|
      ensures ClashesAt(t, up, steps, parsers, i) <==>
              PathOf(up, steps, i + 1) in t && Clashes(t[PathOf(up, steps, i + 1)], steps[i], parsers)
    {
      InstallableAt(steps, parsers, i);
    }
  }

  /** An entry only gains a binding. */
  predicate SameButBinding(a: Info, b: Info) {
    b == a.(bindKey := b.bindKey) && (a.bindKey != "" ==> b.bindKey == a.bindKey)
  }

  /** Nothing there is disturbed, and only the shape's own path is added, with no command on it. */
  lemma {:induction false} InsertKeeps(t: Trie, up: seq<Key>, steps: Shape, parsers: seq<ArgumentParser>, q: seq<Key>)
    requires Installable(steps, parsers) && Insert(t, up, steps, parsers).Ok?
    ensures var t' := Insert(t, up, steps, parsers).value;
            && (q in t ==> q in t' && SameButBinding(t[q], t'[q]))
            && (q in t' <==> q in t || exists i | 0 < i <= |steps| :: q == PathOf(up, steps, i))
            && (q in t' && q !in t ==> t'[q].run == None && t'[q].redirect == null)
    decreases |steps|
  {
    if steps == [] {
    } else {
      var p := up + [StepKey(steps[0])];
      FirstPath(up, steps);
      var info := Touch(Find(t, p), steps[0], parsers).value;
      InsertKeeps(t[p := info], p, steps[1..], parsers, q);
      if exists i | 0 < i <= |steps[1..]| :: q == PathOf(p, steps[1..], i) {
        var i :| 0 < i <= |steps[1..]| && q == PathOf(p, steps[1..], i);
        PathShift(up, steps, i);
        assert q == PathOf(up, steps, i + 1);
      }
      forall i | 1 < i <= |steps|
        ensures PathOf(up, steps, i) == PathOf(p, steps[1..], i - 1)
      {
        PathShift(up, steps, i - 1);
      }
    }
  }

  /** Every node of the shape binds and parses what its step says. */
  lemma {:induction false} InsertBinds(t: Trie, up: seq<Key>, steps: Shape, parsers: seq<ArgumentParser>, i: nat)
    requires Installable(steps, parsers) && Insert(t, up, steps, parsers).Ok? && i < |steps|
    ensures var t', p := Insert(t, up, steps, parsers).value, PathOf(up, steps, i + 1);
            && p in t'
            && (steps[i].StepArgument? ==> t'[p].parser == parsers[steps[i].parserIdx])
            && (steps[i].StepLiteral? && steps[i].bindKey != "" ==> t'[p].bindKey == steps[i].bindKey)
    decreases |steps|
  {
    var p := up + [StepKey(steps[0])];
    var info := Touch(Find(t, p), steps[0], parsers).value;
    if i == 0 {
      FirstPath(up, steps);
      InsertKeeps(t[p := info], p, steps[1..], parsers, p);
    } else {
      PathShift(up, steps, i);
      InsertBinds(t[p := info], p, steps[1..], parsers, i - 1);
    }
  }

  /** Every node is still there, with its parser, its redirect, and any binding it had. */
  ghost predicate KeepsNodes(was: Trie, now: Trie) {
    forall q {:trigger q in now} :: q in was ==>
      && q in now && now[q].parser == was[q].parser && now[q].redirect == was[q].redirect
      && (was[q].bindKey != "" ==> now[q].bindKey == was[q].bindKey)
  }

  /** The node at the path parses and binds what the step says. */
  predicate Carries(t: Trie, p: seq<Key>, step: ShapeStep, parsers: seq<ArgumentParser>) {
    && p in t
    && (step.StepArgument? ==> step.parserIdx < |parsers| && t[p].parser == parsers[step.parserIdx])
    && (step.StepLiteral? && step.bindKey != "" ==> t[p].bindKey == step.bindKey)
  }

  ghost predicate PathCarries(t: Trie, up: seq<Key>, steps: Shape, parsers: seq<ArgumentParser>) {
    forall i | 0 <= i < |steps| :: Carries(t, PathOf(up, steps, i + 1), steps[i], parsers)
  }

  lemma CarriesStill(was: Trie, now: Trie, up: seq<Key>, steps: Shape, parsers: seq<ArgumentParser>)
    requires KeepsNodes(was, now) && PathCarries(was, up, steps, parsers)
    ensures PathCarries(now, up, steps, parsers)
  {
    hide PathOf;
    forall i | 0 <= i < |steps| ensures Carries(now, PathOf(up, steps, i + 1), steps[i], parsers) {
      assert Carries(was, PathOf(up, steps, i + 1), steps[i], parsers);
    }
  }

  lemma KeptTwice(a: Trie, b: Trie, c: Trie)
    requires KeepsNodes(a, b) && KeepsNodes(b, c)
    ensures KeepsNodes(a, c)
  {
    forall q | q in a
      ensures q in c && c[q].parser == a[q].parser && c[q].redirect == a[q].redirect
      ensures a[q].bindKey != "" ==> c[q].bindKey == a[q].bindKey
    {
      assert q in b;
    }
  }

  /** Registering a shape keeps all nodes, and its own carry what its steps say. */
  lemma RegisterCarries(t: Trie, up: seq<Key>, steps: Shape, parsers: seq<ArgumentParser>, cmd: Command, perm: int)
    requires Installable(steps, parsers) && Register(t, up, steps, parsers, cmd, perm).Ok?
    ensures var t' := Register(t, up, steps, parsers, cmd, perm).value;
            KeepsNodes(t, t') && PathCarries(t', up, steps, parsers)
  {
    hide Insert, PathOf, Keys;
    var t' := Register(t, up, steps, parsers, cmd, perm).value;
    var inserted := Insert(t, up, steps, parsers).value;
    forall q | q in t
      ensures q in t' && t'[q].parser == t[q].parser && t'[q].redirect == t[q].redirect
      ensures t[q].bindKey != "" ==> t'[q].bindKey == t[q].bindKey
    {
      InsertKeeps(t, up, steps, parsers, q);
    }
    forall i | 0 <= i < |steps| ensures Carries(t', PathOf(up, steps, i + 1), steps[i], parsers) {
      InsertBinds(t, up, steps, parsers, i);
      assert StepInstallable(steps[i], parsers);
    }
  }

  /** The same for the shapes of a builder: in the end every one of them carries its steps. */
  lemma {:induction false} RegisterAllCarries(t: Trie, up: seq<Key>, shapes: seq<Shape>, parsers: seq<ArgumentParser>,
                                              cmds: seq<Command>, perm: int)
    requires |cmds| == |shapes| && forall i | 0 <= i < |shapes| :: Installable(shapes[i], parsers)
    requires RegisterAll(t, up, shapes, parsers, cmds, perm).Ok?
    ensures var t' := RegisterAll(t, up, shapes, parsers, cmds, perm).value;
            KeepsNodes(t, t') && forall i | 0 <= i < |shapes| :: PathCarries(t', up, shapes[i], parsers)
    decreases |shapes|
  {
    hide Register, KeepsNodes, PathCarries, Installable;
    if shapes == [] {
      AllKept(t);
    } else {
      var t1 := Register(t, up, shapes[0], parsers, cmds[0], perm).value;
      var t' := RegisterAll(t, up, shapes, parsers, cmds, perm).value;
      RegisterCarries(t, up, shapes[0], parsers, cmds[0], perm);
      RegisterAllCarries(t1, up, shapes[1..], parsers, cmds[1..], perm);
      KeptTwice(t, t1, t');
      CarriesStill(t1, t', up, shapes[0], parsers);
      forall i | 0 <= i < |shapes| ensures PathCarries(t', up, shapes[i], parsers) {
        if i > 0 { assert shapes[i] == shapes[1..][i - 1]; }
      }
    }
  }

  lemma AllKept(t: Trie)
    ensures KeepsNodes(t, t)
  {
  }

  function CommandAt(t: Trie, p: seq<Key>): Option<(Command, int)> {
    if p in t then t[p].run else None
  }

  /**
     Registering a shape gives its path the command and no other path a different one.
     It is refused exactly on a clash, or when the path already runs something.
   */
  lemma RegisterIsExact(t: Trie, up: seq<Key>, steps: Shape, parsers: seq<ArgumentParser>, cmd: Command, perm: int,
                        q: seq<Key>)
    requires Installable(steps, parsers)
    ensures Register(t, up, steps, parsers, cmd, perm).Err? <==>
            || (exists i | 0 <= i < |steps| && PathOf(up, steps, i + 1) in t :: (
                    var there := t[PathOf(up, steps, i + 1)];
                    (steps[i].StepArgument? && there.parser != parsers[steps[i].parserIdx]) ||
                    (steps[i].StepLiteral? && steps[i].bindKey != "" && there.bindKey !in {"", steps[i].bindKey})))
            || (steps != [] && CommandAt(t, up + Keys(steps)) != None)
    ensures Register(t, up, steps, parsers, cmd, perm).Ok? ==>
            var t' := Register(t, up, steps, parsers, cmd, perm).value;
            && CommandAt(t', q) == (if steps != [] && q == up + Keys(steps) then Some((cmd, perm)) else CommandAt(t, q))
            && (q in t ==> q in t' && t'[q].redirect == t[q].redirect)
    ensures steps == [] ==> Register(t, up, steps, parsers, cmd, perm) == Ok(t)
  {
    RefusedIffClash(t, up, steps, parsers);
    if Insert(t, up, steps, parsers).Ok? {
      InsertKeeps(t, up, steps, parsers, q);
      var p := up + Keys(steps);
      InsertKeeps(t, up, steps, parsers, p);
      if steps != [] {
        assert Keys(steps)[..|steps|] == Keys(steps);
        assert p == PathOf(up, steps, |steps|);
      }
    }
  }

  /** The shapes of a builder in turn, each with its own command. */
  function RegisterAll(t: Trie, up: seq<Key>, shapes: seq<Shape>, parsers: seq<ArgumentParser>, cmds: seq<Command>,
                       perm: int): Result<Trie, Refusal>
    requires |cmds| == |shapes| && forall i | 0 <= i < |shapes| :: Installable(shapes[i], parsers)
    decreases |shapes|
  {
    if shapes == [] then Ok(t)
    else
      match Register(t, up, shapes[0], parsers, cmds[0], perm)
      case Err(e) => Err(e)
      case Ok(t') => RegisterAll(t', up, shapes[1..], parsers, cmds[1..], perm)
  }

  /** Registering is refused exactly when some shape is, by what the shapes before it left there. */
  lemma {:induction false} RefusedAtSome(t: Trie, up: seq<Key>, shapes: seq<Shape>, parsers: seq<ArgumentParser>,
                                         cmds: seq<Command>, perm: int)
    requires |cmds| == |shapes| && forall i | 0 <= i < |shapes| :: Installable(shapes[i], parsers)
    ensures RegisterAll(t, up, shapes, parsers, cmds, perm).Err? <==>
            exists i | 0 <= i < |shapes| ::
              var before := RegisterAll(t, up, shapes[..i], parsers, cmds[..i], perm);
              before.Ok? && Register(before.value, up, shapes[i], parsers, cmds[i], perm).Err?
    decreases |shapes|
  {
    hide Register, Installable;
    if shapes == [] {
    } else {
      var first := Register(t, up, shapes[0], parsers, cmds[0], perm);
      var rest, more := shapes[1..], cmds[1..];
      assert shapes[..0] == [] && cmds[..0] == [];
      if first.Ok? {
        RefusedAtSome(first.value, up, rest, parsers, more, perm);
        forall i | 0 < i < |shapes|
          ensures RegisterAll(t, up, shapes[..i], parsers, cmds[..i], perm)
                  == RegisterAll(first.value, up, rest[..i - 1], parsers, more[..i - 1], perm)
        {
          assert shapes[..i][1..] == rest[..i - 1] && cmds[..i][1..] == more[..i - 1];
        }
        assert forall j | 0 <= j < |rest| :: rest[j] == shapes[j + 1] && more[j] == cmds[j + 1];
      }
    }
  }

  /** A syntax of a command word alone has one shape, without steps, so its command is nowhere. */
  lemma BareWordGetsNoCommand(t: Trie, b: Builder)
    requires WellBuilt(b) && |b.tokens| == 1
    ensures LeafShapesOf(b.tokens) == [[]]
    ensures |CommandsOf(b)| == 1 ==>
              RegisterAll(t, RootPath(b), LeafShapesOf(b.tokens), b.parsers, CommandsOf(b), b.perm) == Ok(t)
  {
    assert Head(b.tokens, 1) == [] && Optionals(b.tokens, 1) == [];
    assert Bases([], []) == [[]];
    assert ProductAll(b.tokens, [[]]) == Product(b.tokens, []) + ProductAll(b.tokens, []);
  }

  /** Commands already there stay; the builder's own paths differ from them and from one another. */
  lemma {:induction false} RegisterAllKeeps(t: Trie, up: seq<Key>, shapes: seq<Shape>, parsers: seq<ArgumentParser>,
                                            cmds: seq<Command>, perm: int, q: seq<Key>)
    requires |cmds| == |shapes| && forall i | 0 <= i < |shapes| :: Installable(shapes[i], parsers)
    requires RegisterAll(t, up, shapes, parsers, cmds, perm).Ok?
    ensures var t' := RegisterAll(t, up, shapes, parsers, cmds, perm).value;
            && (q in t ==> q in t' && t'[q].redirect == t[q].redirect)
            && (CommandAt(t, q) != None ==>
                 CommandAt(t', q) == CommandAt(t, q) &&
                   forall i | 0 <= i < |shapes| && shapes[i] != [] :: q != up + Keys(shapes[i]))
            && (CommandAt(t', q) != None && CommandAt(t, q) == None ==>
                 exists i | 0 <= i < |shapes| :: shapes[i] != [] && q == up + Keys(shapes[i]))
    decreases |shapes|
  {
    hide Register, CommandAt;
    if shapes == [] {
    } else {
      var t1 := Register(t, up, shapes[0], parsers, cmds[0], perm).value;
      RegisterIsExact(t, up, shapes[0], parsers, cmds[0], perm, q);
      RegisterAllKeeps(t1, up, shapes[1..], parsers, cmds[1..], perm, q);
      forall i | 1 <= i < |shapes|
        ensures shapes[1..][i - 1] == shapes[i]
      {
      }
      var t' := RegisterAll(t1, up, shapes[1..], parsers, cmds[1..], perm).value;
      if CommandAt(t', q) != None && CommandAt(t, q) == None {
        if CommandAt(t1, q) != None {
          assert shapes[0] != [] && q == up + Keys(shapes[0]);
        } else {
          var i :| 0 <= i < |shapes[1..]| && shapes[1..][i] != [] && q == up + Keys(shapes[1..][i]);
          assert shapes[i + 1] == shapes[1..][i];
        }
      }
    }
  }

  /** Every shape with steps is found again under its path, with its own command. */
  lemma {:induction false} OwnCommand(t: Trie, up: seq<Key>, shapes: seq<Shape>, parsers: seq<ArgumentParser>,
                                      cmds: seq<Command>, perm: int, i: nat)
    requires |cmds| == |shapes| && forall i | 0 <= i < |shapes| :: Installable(shapes[i], parsers)
    requires RegisterAll(t, up, shapes, parsers, cmds, perm).Ok? && i < |shapes| && shapes[i] != []
    ensures CommandAt(RegisterAll(t, up, shapes, parsers, cmds, perm).value, up + Keys(shapes[i]))
            == Some((cmds[i], perm))
    ensures CommandAt(t, up + Keys(shapes[i])) == None
    decreases |shapes|
  {
    hide Register, CommandAt;
    var p := up + Keys(shapes[i]);
    var t1 := Register(t, up, shapes[0], parsers, cmds[0], perm).value;
    RegisterIsExact(t, up, shapes[0], parsers, cmds[0], perm, p);
    if i == 0 {
      RegisterAllKeeps(t1, up, shapes[1..], parsers, cmds[1..], perm, p);
    } else {
      assert shapes[1..][i - 1] == shapes[i];
      OwnCommand(t1, up, shapes[1..], parsers, cmds[1..], perm, i - 1);
    }
  }

  /**
   Every shape with steps has its own command, its nodes parse and bind what its steps say;
   what was there stays; no other command is there.
   */
  ghost predicate Registered(was: Trie, now: Trie, b: Builder)
    requires WellBuilt(b)
  {
    var shapes, cmds, up := LeafShapesOf(b.tokens), CommandsOf(b), RootPath(b);
    && |cmds| == |shapes|
    && (forall i | 0 <= i < |shapes| && shapes[i] != [] ::
          && CommandAt(was, up + Keys(shapes[i])) == None
          && CommandAt(now, up + Keys(shapes[i])) == Some((cmds[i], b.perm)))
    && (forall i | 0 <= i < |shapes| :: PathCarries(now, up, shapes[i], b.parsers)) && KeepsNodes(was, now)
    && (forall q {:trigger CommandAt(now, q)} :: CommandAt(was, q) != None ==> CommandAt(now, q) == CommandAt(was, q))
    && (forall q {:trigger CommandAt(now, q)} :: CommandAt(now, q) != None && CommandAt(was, q) == None ==>
          exists i | 0 <= i < |shapes| :: shapes[i] != [] && q == up + Keys(shapes[i]))
  }

  /** A whole builder, once its root literal and aliases are there. */
  lemma BuilderRegisters(was: Trie, t: Trie, b: Builder)
    requires WellBuilt(b) && |CommandsOf(b)| == |LeafShapesOf(b.tokens)|
    requires (forall q {:trigger CommandAt(t, q)} :: CommandAt(t, q) == CommandAt(was, q)) && KeepsNodes(was, t)
    requires forall i | 0 <= i < |LeafShapesOf(b.tokens)| :: Installable(LeafShapesOf(b.tokens)[i], b.parsers)
    requires RegisterAll(t, RootPath(b), LeafShapesOf(b.tokens), b.parsers, CommandsOf(b), b.perm).Ok?
    ensures var now := RegisterAll(t, RootPath(b), LeafShapesOf(b.tokens), b.parsers, CommandsOf(b), b.perm).value;
            Registered(was, now, b) && KeepsNodes(t, now)
  {
    hide RegisterAll, LeafShapesOf, CommandsOf, CommandAt, Keys, KeepsNodes, PathCarries;
    var shapes, cmds, up := LeafShapesOf(b.tokens), CommandsOf(b), RootPath(b);
    var now := RegisterAll(t, up, shapes, b.parsers, cmds, b.perm).value;
    RegisterAllCarries(t, up, shapes, b.parsers, cmds, b.perm);
    KeptTwice(was, t, now);
    forall i | 0 <= i < |shapes| && shapes[i] != []
      ensures CommandAt(was, up + Keys(shapes[i])) == None
      ensures CommandAt(now, up + Keys(shapes[i])) == Some((cmds[i], b.perm))
    {
      OwnCommand(t, up, shapes, b.parsers, cmds, b.perm, i);
      assert CommandAt(t, up + Keys(shapes[i])) == CommandAt(was, up + Keys(shapes[i]));
    }
    forall q: seq<Key>
      ensures CommandAt(was, q) != None ==> CommandAt(now, q) == CommandAt(was, q)
      ensures CommandAt(now, q) != None && CommandAt(was, q) == None ==>
              exists i | 0 <= i < |shapes| :: shapes[i] != [] && q == up + Keys(shapes[i])
    {
      assert CommandAt(t, q) == CommandAt(was, q);
      RegisterAllKeeps(t, up, shapes, b.parsers, cmds, b.perm, q);
    }
  }

  /** Looking up each non-empty shape of the builder gives its own command, over nodes that parse and bind its steps. */
  ghost predicate Answers(t: Trie, b: Builder)
    requires WellBuilt(b)
  {
    var shapes, cmds := LeafShapesOf(b.tokens), CommandsOf(b);
    && |cmds| == |shapes|
    && (forall i | 0 <= i < |shapes| && shapes[i] != [] ::
          CommandAt(t, RootPath(b) + Keys(shapes[i])) == Some((cmds[i], b.perm)))
    && (forall i | 0 <= i < |shapes| :: PathCarries(t, RootPath(b), shapes[i], b.parsers))
  }

  lemma RegisteredAnswers(was: Trie, now: Trie, b: Builder)
    requires WellBuilt(b) && Registered(was, now, b)
    ensures Answers(now, b) && KeepsNodes(was, now)
    ensures forall q {:trigger CommandAt(now, q)} :: CommandAt(was, q) != None ==>
            CommandAt(now, q) == CommandAt(was, q)
  {
    hide PathCarries, KeepsNodes, LeafShapesOf, CommandAt;
  }

  lemma AnswersStay(was: Trie, now: Trie, b: Builder)
    requires WellBuilt(b) && Answers(was, b) && KeepsNodes(was, now)
    requires forall q {:trigger CommandAt(now, q)} :: CommandAt(was, q) != None ==>
             CommandAt(now, q) == CommandAt(was, q)
    ensures Answers(now, b)
  {
    hide PathCarries, KeepsNodes, LeafShapesOf, CommandAt, Keys, CommandsOf;
    var shapes := LeafShapesOf(b.tokens);
    forall i | 0 <= i < |shapes| ensures PathCarries(now, RootPath(b), shapes[i], b.parsers) {
      CarriesStill(was, now, RootPath(b), shapes[i], b.parsers);
    }
  }

  // ----- the root literal and its aliases

  /** An alias is refused unless it is a word of its own, free or already leading to the command. */
  predicate AliasRefused(t: Trie, alias: string, name: string, root: Node) {
    || !IsLiteralName(alias)
    || alias == name
    || ([LiteralKey(alias)] in t && t[[LiteralKey(alias)]].redirect != root)
  }

  function AddLiteral(t: Trie, name: string, redirect: Node?): Trie {
    if [LiteralKey(name)] in t then t else t[[LiteralKey(name)] := Info("", null, None, redirect)]
  }

  function WithAliases(t: Trie, aliases: seq<string>, root: Node): Trie {
    if aliases == [] then t
    else AddLiteral(WithAliases(t, aliases[..|aliases| - 1], root), aliases[|aliases| - 1], root)
  }

  /** The aliases become literals below the root that redirect, each where there was none, and nothing else changes. */
  lemma {:induction false} AliasesAre(t: Trie, aliases: seq<string>, root: Node, p: seq<Key>)
    ensures var now := WithAliases(t, aliases, root);
            && (p in t ==> p in now && now[p] == t[p])
            && (p !in t && p in now ==> now[p] == Info("", null, None, root))
            && (p in now <==> p in t || exists a | a in aliases :: p == [LiteralKey(a)])
  {
    if aliases == [] {
    } else {
      var front, last := aliases[..|aliases| - 1], aliases[|aliases| - 1];
      AliasesAre(t, front, root, p);
      AliasesAre(t, front, root, [LiteralKey(last)]);
      assert forall a :: a in aliases <==> a in front || a == last;
    }
  }

  lemma NoAliases(t: Trie, root: Node)
    ensures WithAliases(t, [], root) == t
  {
  }

  /** Aliases already dealt with do not change what becomes of the next one. */
  lemma OneMoreAlias(t: Trie, aliases: seq<string>, k: nat, name: string, root: Node)
    requires k < |aliases|
    ensures AliasRefused(WithAliases(t, aliases[..k], root), aliases[k], name, root)
            <==> AliasRefused(t, aliases[k], name, root)
    ensures WithAliases(t, aliases[..k + 1], root)
            == AddLiteral(WithAliases(t, aliases[..k], root), aliases[k], root)
  {
    assert aliases[..k + 1][..k] == aliases[..k];
    AliasesAre(t, aliases[..k], root, [LiteralKey(aliases[k])]);
  }

  /** The root literal and its aliases, ready for the shapes. */
  function Readied(t: Trie, b: Builder, root: Node): Trie
    requires WellBuilt(b)
  {
    WithAliases(AddLiteral(t, b.tokens[0].name, null), b.aliases, root)
  }

  /** Whether one command per shape is given, or a single one and no choice whose literal it could not learn. */
  ghost predicate CommandsFit(b: Builder) {
    match b.runs
    case Single(_) => forall i | 0 <= i < |b.tokens| && b.tokens[i].TokChoice? :: b.tokens[i].name != ""
    case Each(cmds) => cmds != [] && |cmds| == |LeafShapesOf(b.tokens)|
  }

  /** Whether a builder is turned down: its commands, an alias or one of its shapes does not fit. */
  ghost predicate TurnedDown(t: Trie, b: Builder, root: Node)
    requires WellBuilt(b)
  {
    || !CommandsFit(b)
    || (exists a | a in b.aliases :: AliasRefused(t, a, b.tokens[0].name, root))
    || !ShapesFit(t, b, root)
  }

  ghost predicate ShapesFit(t: Trie, b: Builder, root: Node)
    requires WellBuilt(b)
  {
    ShapesInstallable(b);
    && |CommandsOf(b)| == |LeafShapesOf(b.tokens)|
    && RegisterAll(Readied(t, b, root), RootPath(b), LeafShapesOf(b.tokens), b.parsers, CommandsOf(b), b.perm).Ok?
  }
}
