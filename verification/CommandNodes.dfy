/** The nodes of a command graph, which may share children and redirect in cycles. */
module CommandNodes {
  import opened Wrappers

  datatype NodeKind = RootNode | LiteralNode | ArgumentNode

  /** What a command runs; only whether a node has one, and which, matters here. */
  datatype Command = Command(id: int)

  datatype Value = Word(text: string) | Opaque(id: int)

  /** An argument parser's verdict at a position: a value and where it ends, or where it complains. */
  datatype ParseOutcome = Parsed(value: Value, end: nat) | Refused(at: nat)

  /** A parser never moves the cursor backwards nor past the input. */
  ghost predicate Advances(parse: (string, nat) -> ParseOutcome) {
    forall s: string, i: nat | i <= |s| && parse(s, i).Parsed? :: i <= parse(s, i).end <= |s|
  }

  type ParseFn = p: (string, nat) -> ParseOutcome | Advances(p) witness (s: string, i: nat) => Refused(i)

  class ArgumentParser {
    const Parse: ParseFn

    constructor (parse: ParseFn)
      ensures Parse == parse
    {
      Parse := parse;
    }
  }

  class Node {
    const Kind: NodeKind
    const Name: string
    const Parser: ArgumentParser?
    var Children: seq<Node>
    var Redirect: Node?
    var Run: Option<Command>
    var BindKey: string
    var PermissionLevel: int
    var IsFork: bool

    constructor (kind: NodeKind, name: string, parser: ArgumentParser?)
      requires kind == ArgumentNode <==> parser != null
      ensures Kind == kind && Name == name && Parser == parser
      ensures Children == [] && Redirect == null && Run == None && BindKey == "" && PermissionLevel == 0 && !IsFork
    {
      Kind, Name, Parser := kind, name, parser;
      Children, Redirect, Run, BindKey, PermissionLevel, IsFork := [], null, None, "", 0, false;
    }

    /** Where parsing goes on after this node. */
    function Target(): (t: Node)
      reads this
      ensures Redirect == null ==> t == this
      ensures Redirect != null ==> t == Redirect
    {
      if Redirect == null then this else Redirect
    }

    /** The first literal child of that name. */
    function FindLiteralChild(name: string): (c: Node?)
      reads this, Children
      ensures c != null ==> c in Children && c.Kind == LiteralNode && c.Name == name
      ensures c == null ==>
              forall k | 0 <= k < |Children| :: Children[k].Kind != LiteralNode || Children[k].Name != name
    {
      FirstLiteral(Children, name)
    }
  }

  function FirstLiteral(cs: seq<Node>, name: string): (c: Node?)
    reads cs
    ensures c != null ==> c in cs && c.Kind == LiteralNode && c.Name == name
    ensures c == null ==> forall k | 0 <= k < |cs| :: cs[k].Kind != LiteralNode || cs[k].Name != name
  {
    if cs == [] then null
    else if cs[0].Kind == LiteralNode && cs[0].Name == name then cs[0]
    else FirstLiteral(cs[1..], name)
  }

  /** Children and redirects of the nodes stay among them. */
  ghost predicate Closed(nodes: set<Node>)
    reads nodes
  {
    && (forall n, k | n in nodes && 0 <= k < |n.Children| :: n.Children[k] in nodes)
    && (forall n | n in nodes && n.Redirect != null :: n.Redirect in nodes)
    && (forall n | n in nodes :: n.Kind == ArgumentNode <==> n.Parser != null)
  }
}
