/** The scanner of NBT arguments, moving the reader's cursor over one value. */
module SnbtScanning {
  import opened Wrappers
  import opened NbtTrees
  import opened Readers
  import opened Snbt

  /** A value was expected; where the complaint points. */
  datatype ScanFault = ExpectedValue(at: nat)

  lemma Rest(s: string, i: nat)
    requires i < |s|
    ensures s[i..][0] == s[i] && s[i..][1..] == s[i + 1..]
  {
  }

  lemma QuotedAt(s: string, i: nat, quote: char)
    requires i <= |s|
    ensures i == |s| ==> QuotedLength(s[i..], quote) == None
    ensures i < |s| && s[i] == '\\' ==>
              QuotedLength(s[i..], quote) == if i + 1 == |s| then None else Add(2, QuotedLength(s[i + 2..], quote))
    ensures i < |s| && s[i] != '\\' ==>
              QuotedLength(s[i..], quote) == if s[i] == quote then Some(1) else Add(1, QuotedLength(s[i + 1..], quote))
  {
    if i < |s| {
      Rest(s, i);
      if i + 1 < |s| { assert s[i..][2..] == s[i + 2..]; }
    }
  }

  lemma BalancedAt(s: string, i: nat, depth: int)
    requires i <= |s|
    ensures i == |s| ==> BalancedLength(s[i..], depth) == None
    ensures i < |s| && Opens(s[i]) ==> BalancedLength(s[i..], depth) == Add(1, BalancedLength(s[i + 1..], depth + 1))
    ensures i < |s| && Closes(s[i]) ==>
              BalancedLength(s[i..], depth) == if depth == 1 then Some(1)
                else Add(1, BalancedLength(s[i + 1..], depth - 1))
    ensures i < |s| && IsPlain(s[i]) ==> BalancedLength(s[i..], depth) == Add(1, BalancedLength(s[i + 1..], depth))
  {
    if i < |s| { Rest(s, i); }
  }

  lemma QuoteAt(s: string, i: nat, depth: int)
    requires i < |s| && Quotes(s[i])
    ensures var q := QuotedLength(s[i + 1..], s[i]);
            BalancedLength(s[i..], depth) == if q == None then None
              else Add(1 + q.value, BalancedLength(s[i + 1 + q.value..], depth))
  {
    Rest(s, i);
    var q := QuotedLength(s[i + 1..], s[i]);
    hide QuotedLength;
    if q.Some? { assert s[i..][1 + q.value..] == s[i + 1 + q.value..]; }
  }

  /** Skip a quoted text, escapes and all; stops past the closing quote. */
  method ReadSNBTQuoted(r: CommandReader) returns (fault: Option<ScanFault>)
    requires r.CanRead()
    modifies r
    ensures r.Valid()
    ensures var q := QuotedLength(r.input[old(r.cursor) + 1..], r.input[old(r.cursor)]);
            if q.Some? then fault == None && r.cursor == old(r.cursor) + 1 + q.value
            else fault == Some(ExpectedValue(r.cursor)) && r.cursor == |r.input|
  {
    hide QuotedLength;
    var quote := r.Read();
    var start := r.cursor;
    ghost var whole := QuotedLength(r.input[start..], quote);
    while r.CanRead()
      invariant start <= r.cursor <= |r.input|
      invariant whole == Add(r.cursor - start, QuotedLength(r.input[r.cursor..], quote))
      decreases |r.input| - r.cursor
    {
      QuotedAt(r.input, r.cursor, quote);
      var ch := r.Read();
      if ch == '\\' {
        if !r.CanRead() { return Some(ExpectedValue(r.cursor)); }
        r.Skip();
      } else if ch == quote {
        return None;
      }
    }
    QuotedAt(r.input, r.cursor, quote);
    return Some(ExpectedValue(r.cursor));
  }

  /** Skip to where the brackets balance. */
  method ReadSNBTBalanced(r: CommandReader) returns (fault: Option<ScanFault>)
    requires r.Valid()
    modifies r
    ensures r.Valid()
    ensures var b := BalancedLength(r.input[old(r.cursor)..], 0);
            if b.Some? then fault == None && r.cursor == old(r.cursor) + b.value
            else fault == Some(ExpectedValue(r.cursor)) && r.cursor == |r.input|
  {
    hide BalancedLength, QuotedLength;
    var depth := 0;
    ghost var start := r.cursor;
    ghost var whole := BalancedLength(r.input[start..], 0);
    while r.CanRead()
      invariant start <= r.cursor <= |r.input|
      invariant whole == Add(r.cursor - start, BalancedLength(r.input[r.cursor..], depth))
      decreases |r.input| - r.cursor
    {
      BalancedAt(r.input, r.cursor, depth);
      var ch := r.Peek();
      if ch == '{' || ch == '[' {
        depth := depth + 1;
        r.Skip();
      } else if ch == '}' || ch == ']' {
        depth := depth - 1;
        r.Skip();
        if depth == 0 { return None; }
      } else if ch == '"' || ch == '\'' {
        QuoteAt(r.input, r.cursor, depth);
        fault := ReadSNBTQuoted(r);
        if fault.Some? { return; }
      } else {
        r.Skip();
      }
    }
    BalancedAt(r.input, r.cursor, depth);
    return Some(ExpectedValue(r.cursor));
  }

  lemma {:induction false} UnquotedEndIs(s: string, i: nat)
    requires i <= |s|
    ensures UnquotedEnd(s, i) == i + UnquotedLength(s[i..])
    decreases |s| - i
  {
    if i >= |s| || !AllowedUnquoted(s[i]) {
    } else {
      UnquotedEndIs(s, i + 1);
      Rest(s, i);
    }
  }

  /** The text of the value at the cursor, which moves past it. */
  method ReadSNBT(r: CommandReader) returns (raw: Result<string, ScanFault>)
    requires r.Valid()
    modifies r
    ensures r.Valid()
    ensures match ValueLength(r.input[old(r.cursor)..])
            case Some(n) => r.cursor == old(r.cursor) + n && raw == Ok(r.input[old(r.cursor)..r.cursor])
            case None => raw == Err(ExpectedValue(r.cursor))
  {
    if !r.CanRead() { return Err(ExpectedValue(r.cursor)); }
    var start := r.cursor;
    Rest(r.input, start);
    var ch := r.Peek();
    if ch == '{' || ch == '[' {
      var fault := ReadSNBTBalanced(r);
      if fault.Some? { return Err(fault.value); }
    } else if ch == '"' || ch == '\'' {
      var fault := ReadSNBTQuoted(r);
      if fault.Some? { return Err(fault.value); }
    } else {
      UnquotedEndIs(r.input, start);
      var _ := r.ReadUnquotedString();
      if r.cursor == start { return Err(ExpectedValue(r.cursor)); }
    }
    return Ok(r.input[start..r.cursor]);
  }

  /** A printed value read back as an argument is the printed value, and leaves what follows it. */
  method ReadPrinted(t: Tree, f: FloatText, before: string, rest: string)
    returns (raw: Result<string, ScanFault>, end: nat)
    requires rest == "" || rest[0] == ' '
    ensures raw == Ok(Printed(t, f)) && end == |before| + |Printed(t, f)|
  {
    hide Printed, ValueLength;
    var text := FormatSNBT(t, f);
    var r := new CommandReader(before + text + rest);
    r.SetCursor(|before|);
    assert r.input[|before|..] == text + rest;
    PrintedEnds(t, f, rest);
    raw := ReadSNBT(r);
    end := r.cursor;
    assert r.input[|before|..end] == text;
  }

  /** A string printed with quotes reads back unchanged. */
  method ReadPrintedString(s: string, before: string, rest: string) returns (r: Result<string, ReadFault>, end: nat)
    ensures r == Ok(s) && end == |before| + |Quoted(s)|
  {
    var sink := new PlainSink();
    WriteString(sink, s);
    var reader := new CommandReader(before + sink.b + rest);
    reader.SetCursor(|before|);
    QuotedReadsBack(before + "\"", s, rest);
    assert reader.input == (before + "\"") + Escape(s) + ("\"" + rest);
    r := reader.ReadQuotedString();
    end := reader.cursor;
  }
}
