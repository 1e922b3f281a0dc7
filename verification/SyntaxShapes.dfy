/**
 What a syntax expands to, read off its tokens alone: which tokens a shape is made of, in
 which order, which parser each argument takes, and which shape comes where in the list.
 */
module SyntaxShapes {
  import opened LeafShapes

  predicate IsArgument(t: Token) {
    t.TokRequired? || t.TokOptional? || t.TokVariadic?
  }

  /** The parser of an argument token: as many as there are argument tokens before it, after the root word. */
  function ParserOf(tokens: seq<Token>, i: nat): nat
    requires i <= |tokens|
  {
    |set k | 0 <= k < i && IsArgument(tokens[k]) && k > 0|
  }

  /** The step stands for token `i`, a choice for its literal number `choice`. */
  predicate Spells(tokens: seq<Token>, i: nat, choice: nat, s: ShapeStep)
    requires i < |tokens|
  {
    match tokens[i]
    case TokLiteral(name) => s == StepLiteral(name, "")
    case TokChoice(name, choices) => choice < |choices| && s == StepLiteral(choices[choice], name)
    case TokRequired(name) => s == StepArgument(name, ParserOf(tokens, i))
    case TokVariadic(name) => s == StepArgument(name, ParserOf(tokens, i))
    case TokOptional(name) => s == StepArgument(name, ParserOf(tokens, i))
  }

  /** `at` are the tokens after the root word and before `n` that are optional or not, in ascending order. */
  ghost predicate Selects(tokens: seq<Token>, n: nat, optional: bool, at: seq<nat>)
    requires n <= |tokens|
  {
    && (forall i, j | 0 <= i < j < |at| :: at[i] < at[j])
    && (forall i | 0 <= i < |at| :: 1 <= at[i] < n && tokens[at[i]].TokOptional? == optional)
    && (forall k: nat | 1 <= k < n && tokens[k].TokOptional? == optional :: k in at)
  }

  // ----- mixed numbers

  /** How many ways a token can be spelt. */
  function Ways(t: Token): nat {
    if t.TokChoice? then |t.choices| else 1
  }

  function Size(radices: seq<nat>): nat {
    if radices == [] then 1 else radices[0] * Size(radices[1..])
  }

  predicate Digits(radices: seq<nat>, digits: seq<nat>) {
    |digits| == |radices| && forall j | 0 <= j < |digits| :: digits[j] < radices[j]
  }

  /** The number with the given digits, the first the most significant. */
  function Rank(radices: seq<nat>, digits: seq<nat>): nat
    requires |digits| == |radices|
    decreases |digits|
  {
    if digits == [] then 0 else digits[0] * Size(radices[1..]) + Rank(radices[1..], digits[1..])
  }

  lemma DigitBelow(d: nat, n: nat, r: nat, size: nat)
    requires d < n && r < size
    ensures d * size + r < n * size
  {
    assert (d + 1) * size <= n * size;
  }

  lemma {:induction false} RankBelow(radices: seq<nat>, digits: seq<nat>)
    requires Digits(radices, digits)
    ensures Rank(radices, digits) < Size(radices)
    decreases |digits|
  {
    if digits == [] {
    } else {
      RankBelow(radices[1..], digits[1..]);
      DigitBelow(digits[0], radices[0], Rank(radices[1..], digits[1..]), Size(radices[1..]));
    }
  }

  /** Every number below the size has digits. */
  lemma {:induction false} RankReaches(radices: seq<nat>, r: nat) returns (digits: seq<nat>)
    requires r < Size(radices)
    ensures Digits(radices, digits) && Rank(radices, digits) == r
    decreases |radices|
  {
    if radices == [] {
      digits := [];
    } else {
      var first, below := Quotient(r, radices[0], Size(radices[1..]));
      var rest := RankReaches(radices[1..], below);
      digits := [first] + rest;
      assert digits[1..] == rest;
    }
  }

  lemma Quotient(r: nat, n: nat, size: nat) returns (q: nat, rest: nat)
    requires r < n * size
    ensures q < n && rest < size && r == q * size + rest
    decreases n
  {
    if r < size {
      q, rest := 0, r;
    } else {
      q, rest := Quotient(r - size, n - 1, size);
      q := q + 1;
    }
  }

  /** The place of the shape with `m` optionals and the choices `digits`, and the number of shapes with up to `n`. */
  function Place(radices: seq<nat>, m: nat, digits: seq<nat>): nat
    requires |digits| == |radices|
  {
    m * Size(radices) + Rank(radices, digits)
  }

  function Total(radices: seq<nat>, n: nat): nat {
    (n + 1) * Size(radices)
  }

  predicate IsAt<T(==)>(s: seq<T>, i: nat, x: T) {
    i < |s| && s[i] == x
  }

  // ----- the steps of a syntax

  lemma {:induction false} ParsersCounted(tokens: seq<Token>, n: nat)
    requires 1 <= n <= |tokens|
    ensures ParsersBefore(tokens, n) == ParserOf(tokens, n)
  {
    if n == 1 {
      assert (set k | 0 <= k < n && IsArgument(tokens[k]) && k > 0) == {};
    } else {
      hide ParserOf;
      ParsersCounted(tokens, n - 1);
      OneMoreParser(tokens, n - 1);
    }
  }

  lemma OneMoreParser(tokens: seq<Token>, i: nat)
    requires 1 <= i < |tokens|
    ensures ParserOf(tokens, i + 1) == ParserOf(tokens, i) + if IsArgument(tokens[i]) then 1 else 0
  {
    var before := set k | 0 <= k < i && IsArgument(tokens[k]) && k > 0;
    var now := set k | 0 <= k < i + 1 && IsArgument(tokens[k]) && k > 0;
    assert now == if IsArgument(tokens[i]) then before + {i} else before;
  }

  /** The steps are those of the tokens at the given positions. */
  predicate StandsFor(tokens: seq<Token>, sh: Shape, at: seq<nat>) {
    |at| == |sh| && forall j | 0 <= j < |at| :: at[j] < |tokens| && sh[j] == StepOf(tokens, at[j])
  }

  lemma OneMoreStands(tokens: seq<Token>, sh: Shape, at: seq<nat>, i: nat)
    requires StandsFor(tokens, sh, at) && i < |tokens|
    ensures StandsFor(tokens, sh + [StepOf(tokens, i)], at + [i])
  {
  }

  lemma StepsNext(tokens: seq<Token>, n: nat)
    requires 1 < n <= |tokens|
    ensures var step, optional := [StepOf(tokens, n - 1)], tokens[n - 1].TokOptional?;
            && Head(tokens, n) == (if optional then Head(tokens, n - 1) else Head(tokens, n - 1) + step)
            && Optionals(tokens, n) == (if optional then Optionals(tokens, n - 1) + step else Optionals(tokens, n - 1))
  {
    assert Head(tokens, n - 1) + [] == Head(tokens, n - 1);
    assert Optionals(tokens, n - 1) + [] == Optionals(tokens, n - 1);
  }

  lemma NoSteps(tokens: seq<Token>, n: nat, optional: bool)
    requires n <= |tokens| && n <= 1
    ensures Selects(tokens, n, optional, []) && StandsFor(tokens, [], [])
    ensures Head(tokens, n) == [] && Optionals(tokens, n) == []
  {
  }

  /** The steps every shape begins with stand for the tokens that are not optional, in order. */
  lemma {:induction false} HeadIs(tokens: seq<Token>, n: nat) returns (at: seq<nat>)
    requires n <= |tokens|
    ensures Selects(tokens, n, false, at) && StandsFor(tokens, Head(tokens, n), at)
  {
    hide Selects, StepOf, StandsFor, Head, Optionals;
    if n <= 1 {
      at := [];
      NoSteps(tokens, n, false);
    } else {
      var before := HeadIs(tokens, n - 1);
      SelectsNext(tokens, n - 1, false, before);
      StepsNext(tokens, n);
      if tokens[n - 1].TokOptional? {
        at := before;
      } else {
        OneMoreStands(tokens, Head(tokens, n - 1), before, n - 1);
        at := before + [n - 1];
      }
    }
  }

  lemma {:induction false} OptionalsAre(tokens: seq<Token>, n: nat) returns (at: seq<nat>)
    requires n <= |tokens|
    ensures Selects(tokens, n, true, at) && StandsFor(tokens, Optionals(tokens, n), at)
  {
    hide Selects, StepOf, StandsFor, Head, Optionals;
    if n <= 1 {
      at := [];
      NoSteps(tokens, n, true);
    } else {
      var before := OptionalsAre(tokens, n - 1);
      SelectsNext(tokens, n - 1, true, before);
      StepsNext(tokens, n);
      if tokens[n - 1].TokOptional? {
        OneMoreStands(tokens, Optionals(tokens, n - 1), before, n - 1);
        at := before + [n - 1];
      } else {
        at := before;
      }
    }
  }

  lemma SelectsNext(tokens: seq<Token>, n: nat, optional: bool, at: seq<nat>)
    requires 1 <= n < |tokens| && Selects(tokens, n, optional, at)
    ensures Selects(tokens, n + 1, optional, if tokens[n].TokOptional? == optional then at + [n] else at)
  {
    var more := at + [n];
    assert more[|at|] == n;
    forall k: nat | k in at ensures k in more {}
  }

  /** There is only one such selection. */
  lemma {:induction false} SelectionIsUnique(tokens: seq<Token>, n: nat, optional: bool, a: seq<nat>, b: seq<nat>)
    requires n <= |tokens| && Selects(tokens, n, optional, a) && Selects(tokens, n, optional, b)
    ensures a == b
    decreases n
  {
    hide Selects;
    if n <= 1 {
      NoneSelected(tokens, n, optional, a);
      NoneSelected(tokens, n, optional, b);
    } else if tokens[n - 1].TokOptional? == optional {
      LastSelected(tokens, n, optional, a);
      LastSelected(tokens, n, optional, b);
      SelectionIsUnique(tokens, n - 1, optional, a[..|a| - 1], b[..|b| - 1]);
    } else {
      NotSelected(tokens, n, optional, a);
      NotSelected(tokens, n, optional, b);
      SelectionIsUnique(tokens, n - 1, optional, a, b);
    }
  }

  lemma NoneSelected(tokens: seq<Token>, n: nat, optional: bool, at: seq<nat>)
    requires n <= |tokens| && n <= 1 && Selects(tokens, n, optional, at)
    ensures at == []
  {
    if at != [] { SelectedInside(tokens, n, optional, at, 0); }
  }

  lemma SelectedInside(tokens: seq<Token>, n: nat, optional: bool, at: seq<nat>, i: nat)
    requires n <= |tokens| && Selects(tokens, n, optional, at) && i < |at|
    ensures 1 <= at[i] < n
  {
  }

  lemma NotSelected(tokens: seq<Token>, n: nat, optional: bool, at: seq<nat>)
    requires 2 <= n <= |tokens| && Selects(tokens, n, optional, at) && tokens[n - 1].TokOptional? != optional
    ensures Selects(tokens, n - 1, optional, at)
  {
    forall i | 0 <= i < |at| ensures at[i] < n - 1 { assert at[i] != n - 1; }
  }

  lemma LastSelected(tokens: seq<Token>, n: nat, optional: bool, at: seq<nat>)
    requires 2 <= n <= |tokens| && Selects(tokens, n, optional, at) && tokens[n - 1].TokOptional? == optional
    ensures at != [] && at[|at| - 1] == n - 1 && Selects(tokens, n - 1, optional, at[..|at| - 1])
    ensures at == at[..|at| - 1] + [n - 1]
  {
    var i :| 0 <= i < |at| && at[i] == n - 1;
    forall k: nat | 1 <= k < n - 1 && tokens[k].TokOptional? == optional ensures k in at[..|at| - 1] {
      var j :| 0 <= j < |at| && at[j] == k;
      assert at[..|at| - 1][j] == k;
    }
  }

  // ----- the shapes of a syntax

  lemma {:induction false} SpreadAt(options: seq<ShapeStep>, rest: seq<Shape>, d: nat, r: nat)
    requires d < |options| && r < |rest|
    ensures IsAt(Spread(options, rest), d * |rest| + r, [options[d]] + rest[r])
    decreases |options|
  {
    SpreadLength(options, rest);
    DigitBelow(d, |options|, r, |rest|);
    if d == 0 {
    } else {
      SpreadAt(options[1..], rest, d - 1, r);
      assert d * |rest| + r == |rest| + ((d - 1) * |rest| + r);
    }
  }

  function Radices(tokens: seq<Token>, sh: Shape): (r: seq<nat>)
    requires AllRefer(tokens, sh)
    ensures |r| == |sh| && forall j | 0 <= j < |r| :: r[j] == |Options(tokens, sh[j])|
  {
    seq(|sh|, j requires 0 <= j < |sh| => |Options(tokens, sh[j])|)
  }

  lemma {:induction false} ProductAt(tokens: seq<Token>, sh: Shape, digits: seq<nat>) returns (made: Shape)
    requires AllRefer(tokens, sh) && Digits(Radices(tokens, sh), digits)
    ensures |Product(tokens, sh)| == Size(Radices(tokens, sh)) && |made| == |sh|
    ensures IsAt(Product(tokens, sh), Rank(Radices(tokens, sh), digits), made)
    ensures forall j | 0 <= j < |sh| :: made[j] == Options(tokens, sh[j])[digits[j]]
    decreases |sh|
  {
    RankBelow(Radices(tokens, sh), digits);
    if sh == [] {
      made := [];
    } else {
      var rest := ProductAt(tokens, sh[1..], digits[1..]);
      assert Radices(tokens, sh)[1..] == Radices(tokens, sh[1..]);
      made := [Options(tokens, sh[0])[digits[0]]] + rest;
      SpreadLength(Options(tokens, sh[0]), Product(tokens, sh[1..]));
      SpreadAt(Options(tokens, sh[0]), Product(tokens, sh[1..]), digits[0],
        Rank(Radices(tokens, sh[1..]), digits[1..]));
    }
  }

  function Repeat(x: nat, n: nat): (r: seq<nat>)
    ensures |r| == n && forall j | 0 <= j < n :: r[j] == x
  {
    seq(n, _ => x)
  }

  /** Further digits that can only be 0 change nothing. */
  lemma {:induction false} RankWithOnes(radices: seq<nat>, digits: seq<nat>, n: nat)
    requires Digits(radices, digits)
    ensures Digits(radices + Repeat(1, n), digits + Repeat(0, n))
    ensures Size(radices + Repeat(1, n)) == Size(radices)
    ensures Rank(radices + Repeat(1, n), digits + Repeat(0, n)) == Rank(radices, digits)
    decreases |digits|
  {
    if digits == [] {
      assert radices + Repeat(1, n) == Repeat(1, n) && digits + Repeat(0, n) == Repeat(0, n);
      OnesOnly(n);
    } else {
      RankWithOnes(radices[1..], digits[1..], n);
      assert (radices + Repeat(1, n))[1..] == radices[1..] + Repeat(1, n);
      assert (digits + Repeat(0, n))[1..] == digits[1..] + Repeat(0, n);
    }
  }

  lemma {:induction false} OnesOnly(n: nat)
    ensures Size(Repeat(1, n)) == 1 && Rank(Repeat(1, n), Repeat(0, n)) == 0
  {
    if n == 0 {
    } else {
      OnesOnly(n - 1);
      assert Repeat(1, n)[1..] == Repeat(1, n - 1) && Repeat(0, n)[1..] == Repeat(0, n - 1);
    }
  }

  /** The head with its choices made, and all the optionals. */
  lemma WithOptionals(tokens: seq<Token>, head: Shape, optionals: Shape, digits: seq<nat>) returns (made: Shape)
    requires AllRefer(tokens, head) && AllRefer(tokens, optionals)
    requires forall i | 0 <= i < |optionals| :: !optionals[i].StepChoice?
    requires Digits(Radices(tokens, head), digits)
    ensures AllRefer(tokens, head + optionals)
    ensures |ProductAll(tokens, [head + optionals])| == Size(Radices(tokens, head))
    ensures IsAt(ProductAll(tokens, [head + optionals]), Rank(Radices(tokens, head), digits), made)
    ensures |made| == |head| + |optionals|
    ensures forall j | 0 <= j < |head| :: made[j] == Options(tokens, head[j])[digits[j]]
    ensures forall j | 0 <= j < |optionals| :: made[|head| + j] == optionals[j]
  {
    hide Product, ProductAll, Rank, Size;
    var whole, n := head + optionals, |optionals|;
    assert Radices(tokens, whole) == Radices(tokens, head) + Repeat(1, n);
    RankWithOnes(Radices(tokens, head), digits, n);
    OneShape(tokens, whole);
    made := ProductAt(tokens, whole, digits + Repeat(0, n));
    forall j | 0 <= j < n ensures made[|head| + j] == optionals[j] {
      assert whole[|head| + j] == optionals[j];
    }
    forall j | 0 <= j < |head| ensures made[j] == Options(tokens, head[j])[digits[j]] {
      assert whole[j] == head[j];
    }
  }

  /** Shape number `m * Size + Rank` is the head with its choices made by the digits, and the first `m` optionals. */
  lemma {:induction false} BaseAt(tokens: seq<Token>, head: Shape, optionals: Shape, m: nat, digits: seq<nat>)
    returns (made: Shape)
    requires AllRefer(tokens, head) && AllRefer(tokens, optionals) && m <= |optionals|
    requires forall i | 0 <= i < |optionals| :: !optionals[i].StepChoice?
    requires Digits(Radices(tokens, head), digits)
    ensures forall i | 0 <= i < |Bases(head, optionals)| :: AllRefer(tokens, Bases(head, optionals)[i])
    ensures |ProductAll(tokens, Bases(head, optionals))| == Total(Radices(tokens, head), |optionals|)
    ensures IsAt(ProductAll(tokens, Bases(head, optionals)), Place(Radices(tokens, head), m, digits), made)
    ensures |made| == |head| + m
    ensures forall j | 0 <= j < |head| :: made[j] == Options(tokens, head[j])[digits[j]]
    ensures forall j | 0 <= j < m :: made[|head| + j] == optionals[j]
    decreases |optionals|
  {
    hide Product, ProductAll, AllRefer, Rank, Size;
    var whole := head + optionals;
    var size, rank := Size(Radices(tokens, head)), Rank(Radices(tokens, head), digits);
    BasesRefer(tokens, head, optionals);
    var last := WithOptionals(tokens, head, optionals, digits);
    if optionals == [] {
      assert whole == head;
      made := last;
    } else {
      var front := optionals[..|optionals| - 1];
      AllReferFront(tokens, optionals);
      var earlier := BaseAt(tokens, head, front, if m < |optionals| then m else 0, digits);
      ProductAllConcat(tokens, Bases(head, front), [whole]);
      Distribute(|front| + 1, size);
      made := if m < |optionals| then earlier else last;
    }
  }

  /**
   The shapes of a syntax, from its tokens: shape number `m * Size + Rank` spells the tokens
   that are not optional, each choice by its digit, and then the first `m` optional ones.
   */
  lemma ShapeAt(tokens: seq<Token>, heads: seq<nat>, optionals: seq<nat>, m: nat, digits: seq<nat>)
    returns (made: Shape)
    requires tokens != [] && m <= |optionals|
    requires Selects(tokens, |tokens|, false, heads) && Selects(tokens, |tokens|, true, optionals)
    requires Digits(WaysAt(tokens, heads), digits)
    ensures |LeafShapesOf(tokens)| == Total(WaysAt(tokens, heads), |optionals|)
    ensures IsAt(LeafShapesOf(tokens), Place(WaysAt(tokens, heads), m, digits), made)
    ensures |made| == |heads| + m
    ensures forall j | 0 <= j < |heads| :: Spells(tokens, heads[j], digits[j], made[j])
    ensures forall j | 0 <= j < m :: Spells(tokens, optionals[j], 0, made[|heads| + j])
  {
    hide Product, ProductAll, Bases, Rank, Size, Head, Optionals, ParsersBefore, ParserOf;
    var head, tail := Head(tokens, |tokens|), Optionals(tokens, |tokens|);
    StepsRefer(tokens, |tokens|);
    var at := HeadIs(tokens, |tokens|);
    var at' := OptionalsAre(tokens, |tokens|);
    SelectionIsUnique(tokens, |tokens|, false, heads, at);
    SelectionIsUnique(tokens, |tokens|, true, optionals, at');
    assert Radices(tokens, head) == WaysAt(tokens, heads);
    made := BaseAt(tokens, head, tail, m, digits);
    forall i | 1 <= i < |tokens| ensures ParsersBefore(tokens, i) == ParserOf(tokens, i) { ParsersCounted(tokens, i); }
  }

  function WaysAt(tokens: seq<Token>, at: seq<nat>): (r: seq<nat>)
    requires forall j | 0 <= j < |at| :: at[j] < |tokens|
    ensures |r| == |at| && forall j | 0 <= j < |r| :: r[j] == Ways(tokens[at[j]])
  {
    seq(|at|, j requires 0 <= j < |at| => Ways(tokens[at[j]]))
  }

  /** And these are all of its shapes. */
  lemma EveryShape(tokens: seq<Token>, index: nat)
    returns (heads: seq<nat>, optionals: seq<nat>, m: nat, digits: seq<nat>)
    requires tokens != [] && index < |LeafShapesOf(tokens)|
    ensures Selects(tokens, |tokens|, false, heads) && Selects(tokens, |tokens|, true, optionals) && m <= |optionals|
    ensures Digits(WaysAt(tokens, heads), digits)
    ensures index == Place(WaysAt(tokens, heads), m, digits)
  {
    hide Product, ProductAll, Bases, Rank, Size, Head, Optionals, LeafShapesOf;
    heads := HeadIs(tokens, |tokens|);
    optionals := OptionalsAre(tokens, |tokens|);
    var head := Head(tokens, |tokens|);
    StepsRefer(tokens, |tokens|);
    assert Radices(tokens, head) == WaysAt(tokens, heads);
    ExpansionCount(tokens);
    SizeIsProduct(tokens, head);
    var rest;
    m, rest := Quotient(index, |optionals| + 1, Size(WaysAt(tokens, heads)));
    digits := RankReaches(WaysAt(tokens, heads), rest);
  }

  lemma {:induction false} SizeIsProduct(tokens: seq<Token>, sh: Shape)
    requires AllRefer(tokens, sh)
    ensures Size(Radices(tokens, sh)) == ChoiceProduct(tokens, sh)
  {
    if sh == [] {
    } else {
      SizeIsProduct(tokens, sh[1..]);
      assert Radices(tokens, sh)[1..] == Radices(tokens, sh[1..]);
    }
  }
}
