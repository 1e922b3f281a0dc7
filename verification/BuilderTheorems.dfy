/** What a registered builder means for its tokens: which node each is, what it parses and binds, and what runs. */
module BuilderTheorems {
  import opened Wrappers
  import opened CommandNodes
  import opened LeafShapes
  import opened SyntaxShapes
  import opened CommandTrie

  /** The key of token `i`, a choice by its literal number `choice`. */
  function KeyAt(tokens: seq<Token>, i: nat, choice: nat): Key
    requires i < |tokens| && choice < Ways(tokens[i])
  {
    match tokens[i]
    case TokLiteral(name) => LiteralKey(name)
    case TokChoice(_, choices) => LiteralKey(choices[choice])
    case TokRequired(name) => ArgumentKey(name)
    case TokVariadic(name) => ArgumentKey(name)
    case TokOptional(name) => ArgumentKey(name)
  }

  /** The node of token `i`: an argument has the parser of its place, a choice binds its name. */
  predicate NodeIs(t: Trie, p: seq<Key>, b: Builder, i: nat)
    requires i < |b.tokens|
  {
    && p in t
    && (IsArgument(b.tokens[i]) ==>
          ParserOf(b.tokens, i) < |b.parsers| && t[p].parser == b.parsers[ParserOf(b.tokens, i)])
    && (b.tokens[i].TokChoice? && b.tokens[i].name != "" ==> t[p].bindKey == b.tokens[i].name)
  }

  /** The tokens of the shape with `m` optionals, and the choices made in them. */
  function Used(heads: seq<nat>, optionals: seq<nat>, m: nat): (at: seq<nat>)
    requires m <= |optionals|
    ensures |at| == |heads| + m
  {
    heads + optionals[..m]
  }

  function Chosen(digits: seq<nat>, m: nat): (c: seq<nat>)
    ensures |c| == |digits| + m
  {
    digits + Repeat(0, m)
  }

  lemma {:induction false} StepNode(t: Trie, b: Builder, steps: Shape, j: nat, i: nat, choice: nat)
    requires WellBuilt(b) && PathCarries(t, RootPath(b), steps, b.parsers) && j < |steps|
    requires i < |b.tokens| && choice < Ways(b.tokens[i]) && Spells(b.tokens, i, choice, steps[j])
    ensures StepKey(steps[j]) == KeyAt(b.tokens, i, choice)
    ensures NodeIs(t, PathOf(RootPath(b), steps, j + 1), b, i)
  {
    assert Carries(t, PathOf(RootPath(b), steps, j + 1), steps[j], b.parsers);
  }

  /**
   A builder that answers, token by token: below its root word lie the nodes of the tokens
   that are not optional and then of the first `m` optional ones, in the order of the
   syntax, each parsing and binding as its token says. The last of them runs the builder's
   command, or the one of that shape's place.
   */
  lemma TokensAreNodes(t: Trie, b: Builder, heads: seq<nat>, optionals: seq<nat>, m: nat, digits: seq<nat>)
    returns (keys: seq<Key>)
    requires WellBuilt(b) && Answers(t, b) && m <= |optionals|
    requires Selects(b.tokens, |b.tokens|, false, heads) && Selects(b.tokens, |b.tokens|, true, optionals)
    requires Digits(WaysAt(b.tokens, heads), digits)
    ensures |keys| == |heads| + m
    ensures forall j | 0 <= j < |keys| ::
              var i, choice := Used(heads, optionals, m)[j], Chosen(digits, m)[j];
              && i < |b.tokens| && choice < Ways(b.tokens[i]) && keys[j] == KeyAt(b.tokens, i, choice)
              && NodeIs(t, RootPath(b) + keys[..j + 1], b, i)
    ensures keys != [] ==>
              match b.runs
              case Single(cmd) => CommandAt(t, RootPath(b) + keys) == Some((cmd, b.perm))
              case Each(cmds) =>
                Place(WaysAt(b.tokens, heads), m, digits) < |cmds| &&
                CommandAt(t, RootPath(b) + keys) == Some((cmds[Place(WaysAt(b.tokens, heads), m, digits)], b.perm))
  {
    hide LeafShapesOf, Place, Total, CommandAt, PathCarries, RootPath, Spells, NodeIs, KeyAt;
    var made := ShapeAt(b.tokens, heads, optionals, m, digits);
    keys := Keys(made);
    assert PathCarries(t, RootPath(b), made, b.parsers);
    forall j | 0 <= j < |keys|
      ensures var i, choice := Used(heads, optionals, m)[j], Chosen(digits, m)[j];
              && i < |b.tokens| && choice < Ways(b.tokens[i]) && keys[j] == KeyAt(b.tokens, i, choice)
              && NodeIs(t, RootPath(b) + keys[..j + 1], b, i)
    {
      if j < |heads| {
        StepNode(t, b, made, j, heads[j], digits[j]);
      } else {
        StepNode(t, b, made, j, optionals[j - |heads|], 0);
      }
    }
  }
}
