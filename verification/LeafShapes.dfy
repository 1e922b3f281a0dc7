/**
 Expanding a linear command syntax, with optional tails and choices, into the flat
 shapes it stands for.
 */
module LeafShapes {
  import opened Wrappers

  datatype Token =
    | TokLiteral(name: string)
    | TokRequired(name: string)
    | TokOptional(name: string)
    | TokChoice(name: string, choices: seq<string>)
    | TokVariadic(name: string)

  /** A step of a shape. A choice remembers its token, an argument its parser. */
  datatype ShapeStep =
    | StepLiteral(name: string, bindKey: string)
    | StepArgument(name: string, parserIdx: nat)
    | StepChoice(name: string, tokenIdx: nat)

  type Shape = seq<ShapeStep>

  // ----- what a syntax stands for

  predicate Refers(tokens: seq<Token>, s: ShapeStep) {
    s.StepChoice? ==> s.tokenIdx < |tokens| && tokens[s.tokenIdx].TokChoice?
  }

  ghost predicate AllRefer(tokens: seq<Token>, sh: Shape) {
    forall i | 0 <= i < |sh| :: Refers(tokens, sh[i])
  }

  /** What one step may become: a choice any of its literals, anything else itself. */
  function Options(tokens: seq<Token>, s: ShapeStep): (o: seq<ShapeStep>)
    requires Refers(tokens, s)
    ensures s.StepChoice? ==> |o| == |tokens[s.tokenIdx].choices|
    ensures !s.StepChoice? ==> o == [s]
    ensures forall i | 0 <= i < |o| :: !o[i].StepChoice?
  {
    if s.StepChoice? then
      var t := tokens[s.tokenIdx];
      seq(|t.choices|, i requires 0 <= i < |t.choices| => StepLiteral(t.choices[i], t.name))
    else [s]
  }

  function Concat<T>(ss: seq<seq<T>>): seq<T> {
    if ss == [] then [] else ss[0] + Concat(ss[1..])
  }

  function Prefix(s: ShapeStep, shs: seq<Shape>): (r: seq<Shape>)
    ensures |r| == |shs|
  {
    seq(|shs|, i requires 0 <= i < |shs| => [s] + shs[i])
  }

  /** `rest` after each option in turn. */
  function Spread(options: seq<ShapeStep>, rest: seq<Shape>): seq<Shape> {
    if options == [] then [] else Prefix(options[0], rest) + Spread(options[1..], rest)
  }

  /** The shapes of a shape with choices: every combination, the first choice varying slowest. */
  function Product(tokens: seq<Token>, sh: Shape): seq<Shape>
    requires AllRefer(tokens, sh)
  {
    if sh == [] then [[]] else Spread(Options(tokens, sh[0]), Product(tokens, sh[1..]))
  }

  function ProductAll(tokens: seq<Token>, shs: seq<Shape>): seq<Shape>
    requires forall i | 0 <= i < |shs| :: AllRefer(tokens, shs[i])
  {
    if shs == [] then [] else Product(tokens, shs[0]) + ProductAll(tokens, shs[1..])
  }

  /** The shapes without any optional, with the first, with the first two, and so on. */
  function Bases(head: Shape, optionals: Shape): seq<Shape> {
    if optionals == [] then [head]
    else Bases(head, optionals[..|optionals| - 1]) + [head + optionals]
  }

  // ----- counting

  function ChoiceProduct(tokens: seq<Token>, sh: Shape): nat
    requires AllRefer(tokens, sh)
  {
    if sh == [] then 1 else |Options(tokens, sh[0])| * ChoiceProduct(tokens, sh[1..])
  }

  lemma {:induction false} SpreadLength(options: seq<ShapeStep>, rest: seq<Shape>)
    ensures |Spread(options, rest)| == |options| * |rest|
  {
    if options == [] {
    } else {
      SpreadLength(options[1..], rest);
    }
  }

  lemma {:induction false} ProductLength(tokens: seq<Token>, sh: Shape)
    requires AllRefer(tokens, sh)
    ensures |Product(tokens, sh)| == ChoiceProduct(tokens, sh)
  {
    if sh == [] {
    } else {
      ProductLength(tokens, sh[1..]);
      SpreadLength(Options(tokens, sh[0]), Product(tokens, sh[1..]));
    }
  }

  lemma {:induction false} PlainTail(tokens: seq<Token>, head: Shape, tail: Shape)
    requires AllRefer(tokens, head) && AllRefer(tokens, tail)
    requires forall i | 0 <= i < |tail| :: !tail[i].StepChoice?
    ensures AllRefer(tokens, head + tail)
    ensures ChoiceProduct(tokens, head + tail) == ChoiceProduct(tokens, head)
  {
    if head == [] {
      assert head + tail == tail;
      if tail != [] {
        PlainTail(tokens, head, tail[1..]);
        assert head + tail[1..] == tail[1..];
      }
    } else {
      PlainTail(tokens, head[1..], tail);
      assert (head + tail)[1..] == head[1..] + tail;
    }
  }

  lemma {:induction false} ProductAllConcat(tokens: seq<Token>, a: seq<Shape>, b: seq<Shape>)
    requires forall i | 0 <= i < |a| :: AllRefer(tokens, a[i])
    requires forall i | 0 <= i < |b| :: AllRefer(tokens, b[i])
    ensures forall i | 0 <= i < |a + b| :: AllRefer(tokens, (a + b)[i])
    ensures ProductAll(tokens, a + b) == ProductAll(tokens, a) + ProductAll(tokens, b)
  {
    if a == [] {
      assert a + b == b;
    } else {
      assert (a + b)[1..] == a[1..] + b;
      ProductAllConcat(tokens, a[1..], b);
    }
  }

  lemma {:induction false} BasesRefer(tokens: seq<Token>, head: Shape, optionals: Shape)
    requires AllRefer(tokens, head) && AllRefer(tokens, optionals)
    ensures |Bases(head, optionals)| == |optionals| + 1
    ensures forall i | 0 <= i < |Bases(head, optionals)| :: AllRefer(tokens, Bases(head, optionals)[i])
    decreases |optionals|
  {
    if optionals == [] {
    } else {
      BasesRefer(tokens, head, optionals[..|optionals| - 1]);
    }
  }

  /** One more shape than optionals, times the product of the numbers of choices. */
  lemma {:induction false} ShapeCount(tokens: seq<Token>, head: Shape, optionals: Shape)
    requires AllRefer(tokens, head) && AllRefer(tokens, optionals)
    requires forall i | 0 <= i < |optionals| :: !optionals[i].StepChoice?
    ensures forall i | 0 <= i < |Bases(head, optionals)| :: AllRefer(tokens, Bases(head, optionals)[i])
    ensures |ProductAll(tokens, Bases(head, optionals))| == (|optionals| + 1) * ChoiceProduct(tokens, head)
    decreases |optionals|
  {
    hide Product, ChoiceProduct, ProductAll, AllRefer;
    BasesRefer(tokens, head, optionals);
    if optionals == [] {
      ProductLength(tokens, head);
      OneShape(tokens, head);
    } else {
      var front, whole := optionals[..|optionals| - 1], head + optionals;
      AllReferFront(tokens, optionals);
      ShapeCount(tokens, head, front);
      PlainTail(tokens, head, optionals);
      ProductLength(tokens, whole);
      OneShape(tokens, whole);
      ProductAllConcat(tokens, Bases(head, front), [whole]);
      Distribute(|front| + 1, ChoiceProduct(tokens, head));
    }
  }

  lemma Distribute(a: nat, b: nat)
    ensures (a + 1) * b == a * b + b
  {
  }

  lemma AllReferFront(tokens: seq<Token>, sh: Shape)
    requires AllRefer(tokens, sh) && sh != []
    ensures AllRefer(tokens, sh[..|sh| - 1])
  {
  }

  lemma OneShape(tokens: seq<Token>, sh: Shape)
    requires AllRefer(tokens, sh)
    ensures ProductAll(tokens, [sh]) == Product(tokens, sh)
  {
    assert ProductAll(tokens, [sh]) == Product(tokens, sh) + ProductAll(tokens, []);
  }

  // ----- one round of fanning out

  /** The first choice of a shape, or -1. */
  function FirstChoice(sh: Shape): (idx: int)
    ensures -1 <= idx < |sh|
    ensures idx >= 0 ==> sh[idx].StepChoice? && forall i | 0 <= i < idx :: !sh[i].StepChoice?
    ensures idx == -1 ==> forall i | 0 <= i < |sh| :: !sh[i].StepChoice?
  {
    if sh == [] then -1
    else if sh[0].StepChoice? then 0
    else
      var rest := FirstChoice(sh[1..]);
      assert forall i | 1 <= i < |sh| :: sh[i] == sh[1..][i - 1];
      if rest == -1 then -1 else rest + 1
  }

  /** A shape with the step at `idx` replaced by each option in turn. */
  function Replaced(sh: Shape, idx: nat, options: seq<ShapeStep>): (r: seq<Shape>)
    requires idx < |sh|
    ensures |r| == |options|
  {
    seq(|options|, i requires 0 <= i < |options| => sh[idx := options[i]])
  }

  /** What one round makes of a shape. */
  function FanOut(tokens: seq<Token>, sh: Shape): seq<Shape>
    requires AllRefer(tokens, sh)
  {
    var idx := FirstChoice(sh);
    if idx == -1 then [sh] else Replaced(sh, idx, Options(tokens, sh[idx]))
  }

  lemma ReplacedRefer(tokens: seq<Token>, sh: Shape, idx: nat, options: seq<ShapeStep>)
    requires AllRefer(tokens, sh) && idx < |sh| && forall i | 0 <= i < |options| :: !options[i].StepChoice?
    ensures forall i | 0 <= i < |options| :: AllRefer(tokens, Replaced(sh, idx, options)[i])
  {
  }

  lemma {:induction false} PlainProduct(tokens: seq<Token>, sh: Shape)
    requires AllRefer(tokens, sh) && forall i | 0 <= i < |sh| :: !sh[i].StepChoice?
    ensures Product(tokens, sh) == [sh]
  {
    if sh == [] {
    } else {
      PlainProduct(tokens, sh[1..]);
      assert Spread([sh[0]], [sh[1..]]) == Prefix(sh[0], [sh[1..]]) + Spread([], [sh[1..]]);
      assert [sh[0]] + sh[1..] == sh;
    }
  }

  /** Replacing a choice by its options splits the product at that choice. */
  lemma {:induction false} SplitFirst(tokens: seq<Token>, sh: Shape, options: seq<ShapeStep>)
    requires AllRefer(tokens, sh) && sh != [] && forall i | 0 <= i < |options| :: !options[i].StepChoice?
    ensures forall i | 0 <= i < |options| :: AllRefer(tokens, Replaced(sh, 0, options)[i])
    ensures ProductAll(tokens, Replaced(sh, 0, options)) == Spread(options, Product(tokens, sh[1..]))
    decreases |options|
  {
    ReplacedRefer(tokens, sh, 0, options);
    if options == [] {
    } else {
      SplitFirst(tokens, sh, options[1..]);
      var first := sh[0 := options[0]];
      assert Replaced(sh, 0, options)[0] == first && first[1..] == sh[1..];
      assert Replaced(sh, 0, options)[1..] == Replaced(sh, 0, options[1..]);
      OneOption(tokens, first);
    }
  }

  lemma OneOption(tokens: seq<Token>, sh: Shape)
    requires AllRefer(tokens, sh) && sh != [] && !sh[0].StepChoice?
    ensures Product(tokens, sh) == Prefix(sh[0], Product(tokens, sh[1..]))
  {
    var rest := Product(tokens, sh[1..]);
    assert Spread([sh[0]], rest) == Prefix(sh[0], rest) + Spread([], rest);
  }

  lemma PrefixSplits(s: ShapeStep, a: seq<Shape>, b: seq<Shape>)
    ensures Prefix(s, a + b) == Prefix(s, a) + Prefix(s, b)
  {
  }

  lemma PrefixHead(s: ShapeStep, shs: seq<Shape>)
    requires shs != []
    ensures Prefix(s, shs) == [[s] + shs[0]] + Prefix(s, shs[1..])
  {
  }

  lemma PrefixRefers(tokens: seq<Token>, s: ShapeStep, shs: seq<Shape>)
    requires !s.StepChoice? && forall i | 0 <= i < |shs| :: AllRefer(tokens, shs[i])
    ensures forall i | 0 <= i < |shs| :: AllRefer(tokens, Prefix(s, shs)[i])
  {
  }

  lemma {:induction false} PrefixCommutes(tokens: seq<Token>, s: ShapeStep, shs: seq<Shape>)
    requires !s.StepChoice? && forall i | 0 <= i < |shs| :: AllRefer(tokens, shs[i])
    ensures forall i | 0 <= i < |shs| :: AllRefer(tokens, Prefix(s, shs)[i])
    ensures ProductAll(tokens, Prefix(s, shs)) == Prefix(s, ProductAll(tokens, shs))
  {
    hide Prefix, Product, AllRefer;
    PrefixRefers(tokens, s, shs);
    if shs == [] {
      assert Prefix(s, ProductAll(tokens, shs)) == [];
    } else {
      PrefixCommutes(tokens, s, shs[1..]);
      PrefixHead(s, shs);
      var first := Prefix(s, shs)[0];
      assert first[1..] == shs[0];
      OneOption(tokens, first);
      assert Prefix(s, shs)[1..] == Prefix(s, shs[1..]);
      PrefixSplits(s, Product(tokens, shs[0]), ProductAll(tokens, shs[1..]));
    }
  }

  /** Replacing the first choice by its options leaves the product as it was, in the same order. */
  lemma {:induction false} ReplacingKeepsProduct(tokens: seq<Token>, sh: Shape, idx: nat)
    requires AllRefer(tokens, sh) && idx < |sh| && forall i | 0 <= i < idx :: !sh[i].StepChoice?
    ensures var r := Replaced(sh, idx, Options(tokens, sh[idx]));
            (forall i | 0 <= i < |r| :: AllRefer(tokens, r[i])) && ProductAll(tokens, r) == Product(tokens, sh)
  {
    var options := Options(tokens, sh[idx]);
    ReplacedRefer(tokens, sh, idx, options);
    if idx == 0 {
      SplitFirst(tokens, sh, options);
    } else {
      ReplacingKeepsProduct(tokens, sh[1..], idx - 1);
      ReplacedRefer(tokens, sh[1..], idx - 1, options);
      PrefixCommutes(tokens, sh[0], Replaced(sh[1..], idx - 1, options));
      assert Replaced(sh, idx, options) == Prefix(sh[0], Replaced(sh[1..], idx - 1, options)) by {
        forall i | 0 <= i < |options|
          ensures sh[idx := options[i]] == [sh[0]] + sh[1..][idx - 1 := options[i]]
        {
        }
      }
      OneOption(tokens, sh);
    }
  }

  lemma FanOutKeepsProduct(tokens: seq<Token>, sh: Shape)
    requires AllRefer(tokens, sh)
    ensures forall i | 0 <= i < |FanOut(tokens, sh)| :: AllRefer(tokens, FanOut(tokens, sh)[i])
    ensures ProductAll(tokens, FanOut(tokens, sh)) == Product(tokens, sh)
  {
    hide Product, ProductAll, Replaced, Options;
    var idx := FirstChoice(sh);
    if idx == -1 { OneShape(tokens, sh); } else { ReplacingKeepsProduct(tokens, sh, idx); }
  }

  // ----- every combination, once each

  /** The step is one the other may become. */
  predicate MayBecome(tokens: seq<Token>, from: ShapeStep, to: ShapeStep)
    requires Refers(tokens, from)
  {
    if from.StepChoice? then
      && to.StepLiteral? && to.name in tokens[from.tokenIdx].choices && to.bindKey == tokens[from.tokenIdx].name
    else to == from
  }

  lemma OptionsAre(tokens: seq<Token>, s: ShapeStep, o: ShapeStep)
    requires Refers(tokens, s)
    ensures o in Options(tokens, s) <==> MayBecome(tokens, s, o)
  {
    if MayBecome(tokens, s, o) && s.StepChoice? {
      var cs := tokens[s.tokenIdx].choices;
      var i :| 0 <= i < |cs| && cs[i] == o.name;
      assert Options(tokens, s)[i] == o;
    }
  }

  lemma {:induction false} SpreadMembers(options: seq<ShapeStep>, rest: seq<Shape>, sh: Shape)
    ensures sh in Spread(options, rest) <==> sh != [] && sh[0] in options && sh[1..] in rest
    decreases |options|
  {
    if options == [] {
    } else {
      SpreadMembers(options[1..], rest, sh);
      assert sh in Prefix(options[0], rest) <==> sh != [] && sh[0] == options[0] && sh[1..] in rest by {
        if sh != [] && sh[0] == options[0] && sh[1..] in rest {
          var i :| 0 <= i < |rest| && rest[i] == sh[1..];
          assert sh == [sh[0]] + sh[1..] && Prefix(options[0], rest)[i] == sh;
        }
      }
    }
  }

  /** The product of a shape is exactly the shapes it may become, step by step. */
  lemma {:induction false} ProductMembers(tokens: seq<Token>, sh: Shape, made: Shape)
    requires AllRefer(tokens, sh)
    ensures made in Product(tokens, sh) <==>
            |made| == |sh| && forall i | 0 <= i < |sh| :: MayBecome(tokens, sh[i], made[i])
  {
    if sh == [] {
    } else {
      SpreadMembers(Options(tokens, sh[0]), Product(tokens, sh[1..]), made);
      if made != [] {
        ProductMembers(tokens, sh[1..], made[1..]);
        OptionsAre(tokens, sh[0], made[0]);
        assert |made[1..]| == |sh[1..]| &&
               (forall i | 0 <= i < |sh[1..]| :: MayBecome(tokens, sh[1..][i], made[1..][i]))
          <==> |made| == |sh| && forall i | 1 <= i < |sh| :: MayBecome(tokens, sh[i], made[i]) by {
          if |made| == |sh| && forall i | 0 <= i < |sh[1..]| :: MayBecome(tokens, sh[1..][i], made[1..][i]) {
            forall i | 1 <= i < |sh| ensures MayBecome(tokens, sh[i], made[i]) {
              assert sh[i] == sh[1..][i - 1] && made[i] == made[1..][i - 1];
            }
          }
        }
      }
    }
  }

  // ----- the builder's own computation

  function ParsersBefore(tokens: seq<Token>, n: nat): nat
    requires n <= |tokens|
  {
    if n <= 1 then 0
    else
      var t := tokens[n - 1];
      ParsersBefore(tokens, n - 1) + if t.TokRequired? || t.TokOptional? || t.TokVariadic? then 1 else 0
  }

  /** The step of a token: an argument takes the next parser in order. */
  function StepOf(tokens: seq<Token>, i: nat): (s: ShapeStep)
    requires i < |tokens|
    ensures Refers(tokens, s) && (s.StepChoice? <==> tokens[i].TokChoice?)
  {
    match tokens[i]
    case TokLiteral(name) => StepLiteral(name, "")
    case TokChoice(name, _) => StepChoice(name, i)
    case _ => StepArgument(tokens[i].name, ParsersBefore(tokens, i))
  }

  /** The steps every shape begins with: all but the optionals, after the root literal. */
  function Head(tokens: seq<Token>, n: nat): Shape
    requires n <= |tokens|
  {
    if n <= 1 then []
    else Head(tokens, n - 1) + if tokens[n - 1].TokOptional? then [] else [StepOf(tokens, n - 1)]
  }

  function Optionals(tokens: seq<Token>, n: nat): Shape
    requires n <= |tokens|
  {
    if n <= 1 then []
    else Optionals(tokens, n - 1) + if tokens[n - 1].TokOptional? then [StepOf(tokens, n - 1)] else []
  }

  lemma {:induction false} StepsRefer(tokens: seq<Token>, n: nat)
    requires n <= |tokens|
    ensures AllRefer(tokens, Head(tokens, n)) && AllRefer(tokens, Optionals(tokens, n))
    ensures forall i | 0 <= i < |Optionals(tokens, n)| :: !Optionals(tokens, n)[i].StepChoice?
  {
    if n <= 1 {
    } else {
      StepsRefer(tokens, n - 1);
    }
  }

  /** The leaf shapes of a syntax. */
  function LeafShapesOf(tokens: seq<Token>): seq<Shape> {
    StepsRefer(tokens, |tokens|);
    BasesRefer(tokens, Head(tokens, |tokens|), Optionals(tokens, |tokens|));
    ProductAll(tokens, Bases(Head(tokens, |tokens|), Optionals(tokens, |tokens|)))
  }

  method SplitSteps(tokens: seq<Token>) returns (head: Shape, optionals: Shape)
    requires tokens != []
    ensures head == Head(tokens, |tokens|) && optionals == Optionals(tokens, |tokens|)
  {
    var parserIdx := 0;
    head, optionals := [], [];
    for i := 1 to |tokens|
      invariant parserIdx == ParsersBefore(tokens, i)
      invariant head == Head(tokens, i) && optionals == Optionals(tokens, i)
    {
      match tokens[i] {
        case TokLiteral(name) =>
          head := head + [StepLiteral(name, "")];
        case TokRequired(name) =>
          head := head + [StepArgument(name, parserIdx)];
          parserIdx := parserIdx + 1;
        case TokVariadic(name) =>
          head := head + [StepArgument(name, parserIdx)];
          parserIdx := parserIdx + 1;
        case TokOptional(name) =>
          optionals := optionals + [StepArgument(name, parserIdx)];
          parserIdx := parserIdx + 1;
        case TokChoice(name, _) =>
          head := head + [StepChoice(name, i)];
      }
    }
  }

  method BaseShapes(head: Shape, optionals: Shape) returns (bases: seq<Shape>)
    ensures bases == Bases(head, optionals)
  {
    bases := [head];
    for k := 0 to |optionals|
      invariant bases == Bases(head, optionals[..k])
      invariant bases != [] && bases[|bases| - 1] == head + optionals[..k]
    {
      assert optionals[..k + 1][..k] == optionals[..k];
      assert head + optionals[..k] + [optionals[k]] == head + optionals[..k + 1];
      bases := bases + [bases[|bases| - 1] + [optionals[k]]];
    }
    assert optionals[..|optionals|] == optionals;
  }

  /** No shape has a choice before `r`, and none is longer than `bound`. */
  ghost predicate PlainBefore(tokens: seq<Token>, shs: seq<Shape>, r: nat, bound: nat) {
    forall j | 0 <= j < |shs| :: AllRefer(tokens, shs[j]) && |shs[j]| <= bound && PlainUpTo(shs[j], r)
  }

  ghost predicate PlainUpTo(sh: Shape, r: nat) {
    forall i | 0 <= i < r && i < |sh| :: !sh[i].StepChoice?
  }

  lemma FanOutAdvances(tokens: seq<Token>, sh: Shape, r: nat, bound: nat)
    requires AllRefer(tokens, sh) && PlainUpTo(sh, r) && |sh| <= bound
    ensures PlainBefore(tokens, FanOut(tokens, sh), r + 1, bound)
    ensures FirstChoice(sh) != -1 ==> r < bound
    ensures FirstChoice(sh) == -1 ==> FanOut(tokens, sh) == [sh]
  {
    FanOutKeepsProduct(tokens, sh);
  }

  lemma AllReferOf(tokens: seq<Token>, shs: seq<Shape>, r: nat, bound: nat)
    requires PlainBefore(tokens, shs, r, bound)
    ensures forall i | 0 <= i < |shs| :: AllRefer(tokens, shs[i])
  {
  }

  /** One round over all shapes: the product stays, and the choices start one step later. */
  method FanOutRound(tokens: seq<Token>, shapes: seq<Shape>, ghost r: nat, ghost bound: nat)
    returns (next: seq<Shape>, fanOut: bool)
    requires PlainBefore(tokens, shapes, r, bound)
    ensures PlainBefore(tokens, shapes, r, bound) && PlainBefore(tokens, next, r + 1, bound)
    ensures (forall i | 0 <= i < |shapes| :: AllRefer(tokens, shapes[i])) &&
            forall i | 0 <= i < |next| :: AllRefer(tokens, next[i])
    ensures ProductAll(tokens, next) == ProductAll(tokens, shapes)
    ensures fanOut ==> r < bound
    ensures !fanOut ==> next == shapes && forall j | 0 <= j < |shapes| :: FirstChoice(shapes[j]) == -1
  {
    hide FanOut, ProductAll, AllRefer, PlainUpTo, FirstChoice, Product, Options;
    next, fanOut := [], false;
    AllReferOf(tokens, shapes, r, bound);
    ghost var done: seq<Shape> := [];
    assert ProductAll(tokens, next) == ProductAll(tokens, done);
    for j := 0 to |shapes|
      invariant done == shapes[..j]
      invariant PlainBefore(tokens, next, r + 1, bound)
      invariant forall i | 0 <= i < |next| :: AllRefer(tokens, next[i])
      invariant ProductAll(tokens, next) == ProductAll(tokens, done)
      invariant fanOut ==> r < bound
      invariant !fanOut ==> next == done && forall i | 0 <= i < j :: FirstChoice(shapes[i]) == -1
    {
      var sh := shapes[j];
      FanOutAdvances(tokens, sh, r, bound);
      FanOutKeepsProduct(tokens, sh);
      var made := FanOutOne(tokens, sh);
      if FirstChoice(sh) != -1 { fanOut := true; }
      ProductAllConcat(tokens, next, made);
      ProductAllConcat(tokens, done, [sh]);
      OneShape(tokens, sh);
      next := next + made;
      done := done + [sh];
    }
    assert shapes[..|shapes|] == shapes;
  }

  /** Look for the first choice, then copy the shape once per branch. */
  method FanOutOne(tokens: seq<Token>, sh: Shape) returns (made: seq<Shape>)
    requires AllRefer(tokens, sh)
    ensures made == FanOut(tokens, sh)
  {
    var idx := -1;
    for i := 0 to |sh|
      invariant idx == -1
      invariant forall k | 0 <= k < i :: !sh[k].StepChoice?
    {
      if sh[i].StepChoice? {
        idx := i;
        break;
      }
    }
    assert idx == FirstChoice(sh);
    if idx == -1 { return [sh]; }
    var choice := tokens[sh[idx].tokenIdx];
    made := [];
    for k := 0 to |choice.choices|
      invariant made == FanOut(tokens, sh)[..k]
    {
      made := made + [sh[idx := StepLiteral(choice.choices[k], choice.name)]];
    }
  }

  lemma {:induction false} AllPlain(tokens: seq<Token>, shs: seq<Shape>)
    requires forall i | 0 <= i < |shs| :: AllRefer(tokens, shs[i]) && FirstChoice(shs[i]) == -1
    ensures ProductAll(tokens, shs) == shs
  {
    if shs == [] {
    } else {
      PlainProduct(tokens, shs[0]);
      AllPlain(tokens, shs[1..]);
    }
  }

  lemma {:induction false} BasesBound(tokens: seq<Token>, head: Shape, optionals: Shape)
    requires AllRefer(tokens, head) && AllRefer(tokens, optionals)
    ensures PlainBefore(tokens, Bases(head, optionals), 0, |head| + |optionals|)
    decreases |optionals|
  {
    BasesRefer(tokens, head, optionals);
    if optionals == [] {
    } else {
      BasesBound(tokens, head, optionals[..|optionals| - 1]);
    }
  }

  /** Fan the choices out, one per shape and round, until there is none. */
  method ExpandLeafShapes(tokens: seq<Token>) returns (shapes: seq<Shape>)
    requires tokens != []
    ensures shapes == LeafShapesOf(tokens)
  {
    hide ProductAll, AllRefer, FirstChoice, PlainBefore, Bases, Head, Optionals;
    var head, optionals := SplitSteps(tokens);
    shapes := BaseShapes(head, optionals);
    StepsRefer(tokens, |tokens|);
    BasesRefer(tokens, head, optionals);
    BasesBound(tokens, head, optionals);
    ghost var r, bound := 0, |head| + |optionals|;
    var fanOut := true;
    while fanOut
      invariant PlainBefore(tokens, shapes, r, bound)
      invariant forall i | 0 <= i < |shapes| :: AllRefer(tokens, shapes[i])
      invariant ProductAll(tokens, shapes) == LeafShapesOf(tokens)
      invariant fanOut ==> r <= bound
      invariant !fanOut ==> forall j | 0 <= j < |shapes| :: FirstChoice(shapes[j]) == -1
      decreases fanOut, bound - r
    {
      shapes, fanOut := FanOutRound(tokens, shapes, r, bound);
      r := r + 1;
    }
    AllPlain(tokens, shapes);
  }

  /** What a syntax expands to: with each number of optionals, every combination of choices. */
  lemma LeafShapesAre(tokens: seq<Token>, made: Shape)
    requires tokens != []
    ensures var head, optionals := Head(tokens, |tokens|), Optionals(tokens, |tokens|);
            made in LeafShapesOf(tokens) <==>
            && |head| <= |made| <= |head| + |optionals|
            && (forall i | 0 <= i < |head| :: Refers(tokens, head[i]) && MayBecome(tokens, head[i], made[i]))
            && (forall i | |head| <= i < |made| :: made[i] == optionals[i - |head|])
  {
    hide Product, ProductAll, Bases, Head, Optionals;
    var head, optionals := Head(tokens, |tokens|), Optionals(tokens, |tokens|);
    StepsRefer(tokens, |tokens|);
    BaseMembers(tokens, head, optionals, made);
  }

  lemma {:induction false} BaseMembers(tokens: seq<Token>, head: Shape, optionals: Shape, made: Shape)
    requires AllRefer(tokens, head) && AllRefer(tokens, optionals)
    requires forall i | 0 <= i < |optionals| :: !optionals[i].StepChoice?
    ensures forall i | 0 <= i < |Bases(head, optionals)| :: AllRefer(tokens, Bases(head, optionals)[i])
    ensures made in ProductAll(tokens, Bases(head, optionals)) <==>
            && |head| <= |made| <= |head| + |optionals|
            && (forall i | 0 <= i < |head| :: MayBecome(tokens, head[i], made[i]))
            && (forall i | |head| <= i < |made| :: made[i] == optionals[i - |head|])
    decreases |optionals|
  {
    hide Product, ProductAll;
    BasesRefer(tokens, head, optionals);
    var whole := head + optionals;
    OneShape(tokens, whole);
    ProductMembers(tokens, whole, made);
    if optionals != [] {
      var front := optionals[..|optionals| - 1];
      BaseMembers(tokens, head, front, made);
      ProductAllConcat(tokens, Bases(head, front), [whole]);
    } else {
      assert whole == head;
    }
  }

  /** A builder expands to one more shape than it has optionals, times the product of its choice counts. */
  lemma ExpansionCount(tokens: seq<Token>)
    requires tokens != []
    ensures AllRefer(tokens, Head(tokens, |tokens|))
    ensures |LeafShapesOf(tokens)|
            == (|Optionals(tokens, |tokens|)| + 1) * ChoiceProduct(tokens, Head(tokens, |tokens|))
  {
    StepsRefer(tokens, |tokens|);
    ShapeCount(tokens, Head(tokens, |tokens|), Optionals(tokens, |tokens|));
  }
}
