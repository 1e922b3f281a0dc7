/**
 The cursor over a command line that every argument parser reads from. Strings are
 sequences of bytes.
 */
module Readers {
  import opened Wrappers

  datatype ReadFault = QuoteExpectedStart(at: nat) | QuoteEscape(at: nat) | QuoteExpectedEnd(at: nat)

  predicate AllowedInNumber(c: char) {
    '0' <= c <= '9' || c == '-' || c == '.'
  }

  predicate AllowedUnquoted(c: char) {
    AllowedInNumber(c) || 'A' <= c <= 'Z' || 'a' <= c <= 'z' || c == '_' || c == '+'
  }

  // ----- where each read stops

  /** The first position from `i` that is not a space. */
  function SkipSpaces(s: string, i: nat): (j: nat)
    requires i <= |s|
    ensures i <= j <= |s|
    ensures j < |s| ==> s[j] != ' '
    ensures forall k | i <= k < j :: s[k] == ' '
    decreases |s| - i
  {
    if i < |s| && s[i] == ' ' then SkipSpaces(s, i + 1) else i
  }

  /** The first space from `i`, or the end. */
  function WordEnd(s: string, i: nat): (j: nat)
    requires i <= |s|
    ensures i <= j <= |s|
    ensures j < |s| ==> s[j] == ' '
    ensures forall k | i <= k < j :: s[k] != ' '
    decreases |s| - i
  {
    if i < |s| && s[i] != ' ' then WordEnd(s, i + 1) else i
  }

  function UnquotedEnd(s: string, i: nat): (j: nat)
    requires i <= |s|
    ensures i <= j <= |s|
    ensures j < |s| ==> !AllowedUnquoted(s[j])
    ensures forall k | i <= k < j :: AllowedUnquoted(s[k])
    decreases |s| - i
  {
    if i < |s| && AllowedUnquoted(s[i]) then UnquotedEnd(s, i + 1) else i
  }

  datatype QuotedRead = Text(text: string, end: nat) | Bad(fault: ReadFault)

  /** The text up to an unescaped `quote`, with only the quote and the backslash escapable. */
  function ReadUntil(s: string, i: nat, quote: char): (r: QuotedRead)
    requires i <= |s|
    ensures r.Text? ==> i < r.end <= |s|
    decreases |s| - i
  {
    if i == |s| then Bad(QuoteExpectedEnd(i))
    else if s[i] == '\\' then
      if i + 1 == |s| then Bad(QuoteExpectedEnd(i + 1))
      else if s[i + 1] != quote && s[i + 1] != '\\' then Bad(QuoteEscape(i + 1))
      else Prepend(s[i + 1], ReadUntil(s, i + 2, quote))
    else if s[i] == quote then Text([], i + 1)
    else Prepend(s[i], ReadUntil(s, i + 1, quote))
  }

  function Prepend(c: char, r: QuotedRead): QuotedRead {
    match r
    case Text(t, e) => Text([c] + t, e)
    case Bad(f) => Bad(f)
  }

  /** `done` read so far, then `r`. */
  function After(done: string, r: QuotedRead): QuotedRead {
    match r
    case Text(t, e) => Text(done + t, e)
    case Bad(f) => Bad(f)
  }

  lemma AfterPrepend(done: string, c: char, r: QuotedRead)
    ensures After(done, Prepend(c, r)) == After(done + [c], r)
  {
    if r.Text? {
      assert done + ([c] + r.text) == (done + [c]) + r.text;
    }
  }

  // ----- the reader

  class CommandReader {
    const input: string
    var cursor: nat

    constructor (input: string)
      ensures this.input == input && cursor == 0
    {
      this.input := input;
      cursor := 0;
    }

    ghost predicate Valid()
      reads this
    {
      cursor <= |input|
    }

    predicate CanRead()
      reads this
    {
      cursor < |input|
    }

    function Peek(): char
      reads this
      requires CanRead()
    {
      input[cursor]
    }

    method Read() returns (b: char)
      requires CanRead()
      modifies this
      ensures b == input[old(cursor)] && cursor == old(cursor) + 1
    {
      b := input[cursor];
      cursor := cursor + 1;
    }

    method Skip()
      requires CanRead()
      modifies this
      ensures cursor == old(cursor) + 1
    {
      cursor := cursor + 1;
    }

    method SetCursor(pos: nat)
      modifies this
      ensures cursor == pos
    {
      cursor := pos;
    }

    method SkipWhitespace()
      requires Valid()
      modifies this
      ensures cursor == SkipSpaces(input, old(cursor))
    {
      while CanRead() && Peek() == ' '
        invariant Valid() && SkipSpaces(input, cursor) == SkipSpaces(input, old(cursor))
        decreases |input| - cursor
      {
        Skip();
      }
    }

    method ReadWord() returns (word: string)
      requires Valid()
      modifies this
      ensures cursor == WordEnd(input, old(cursor)) && word == input[old(cursor)..cursor]
    {
      var start := cursor;
      while CanRead() && Peek() != ' '
        invariant start <= cursor <= |input| && WordEnd(input, cursor) == WordEnd(input, old(cursor))
        decreases |input| - cursor
      {
        Skip();
      }
      return input[start..cursor];
    }

    method PeekWord() returns (word: string)
      requires Valid()
      modifies this
      ensures cursor == old(cursor) && word == input[cursor..WordEnd(input, cursor)]
    {
      var saved := cursor;
      word := ReadWord();
      cursor := saved;
    }

    method ReadUnquotedString() returns (text: string)
      requires Valid()
      modifies this
      ensures cursor == UnquotedEnd(input, old(cursor)) && text == input[old(cursor)..cursor]
    {
      var start := cursor;
      while CanRead() && AllowedUnquoted(Peek())
        invariant start <= cursor <= |input| && UnquotedEnd(input, cursor) == UnquotedEnd(input, old(cursor))
        decreases |input| - cursor
      {
        Skip();
      }
      return input[start..cursor];
    }

    /** On success the cursor is past the closing quote; an unknown escape leaves it on the escaped byte. */
    method ReadStringUntil(terminator: char) returns (r: Result<string, ReadFault>)
      requires Valid() && terminator != '\\'
      modifies this
      ensures Valid()
      ensures match ReadUntil(input, old(cursor), terminator)
              case Text(t, e) => r == Ok(t) && cursor == e
              case Bad(f) => r == Err(f) && cursor == f.at
    {
      var buf := [];
      var escaped := false;
      ghost var whole := ReadUntil(input, cursor, terminator);
      while CanRead()
        invariant Valid()
        invariant !escaped ==> whole == After(buf, ReadUntil(input, cursor, terminator))
        invariant escaped ==> 0 < cursor && input[cursor - 1] == '\\'
                              && whole == After(buf, ReadUntil(input, cursor - 1, terminator))
        decreases |input| - cursor
      {
        var ch := Read();
        if escaped {
          if ch != terminator && ch != '\\' {
            cursor := cursor - 1;
            return Err(QuoteEscape(cursor));
          }
          AfterPrepend(buf, ch, ReadUntil(input, cursor, terminator));
          buf := buf + [ch];
          escaped := false;
        } else if ch == '\\' {
          escaped := true;
        } else if ch == terminator {
          assert buf + [] == buf;
          return Ok(buf);
        } else {
          AfterPrepend(buf, ch, ReadUntil(input, cursor, terminator));
          buf := buf + [ch];
        }
      }
      return Err(QuoteExpectedEnd(cursor));
    }

    method ReadQuotedString() returns (r: Result<string, ReadFault>)
      requires Valid()
      modifies this
      ensures Valid()
      ensures old(cursor) == |input| ==> r == Ok("") && cursor == old(cursor)
      ensures old(cursor) < |input| && input[old(cursor)] != '"' && input[old(cursor)] != '\'' ==>
                r == Err(QuoteExpectedStart(old(cursor))) && cursor == old(cursor)
      ensures old(cursor) < |input| && (input[old(cursor)] == '"' || input[old(cursor)] == '\'') ==>
                match ReadUntil(input, old(cursor) + 1, input[old(cursor)])
                case Text(t, e) => r == Ok(t) && cursor == e
                case Bad(f) => r == Err(f) && cursor == f.at
    {
      if !CanRead() {
        return Ok("");
      }
      var quote := Peek();
      if quote != '"' && quote != '\'' {
        return Err(QuoteExpectedStart(cursor));
      }
      Skip();
      r := ReadStringUntil(quote);
    }
  }
}
