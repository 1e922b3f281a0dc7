/**
 What the readers of quoted texts and of NBT arguments accept, said without them: a quoted
 text by the pieces it is written in, a value by what each of its characters does.
 */
module ScanTheorems {
  import opened Wrappers
  import opened Readers
  import opened Snbt
  import opened SnbtScanning

  // ----- quoted texts

  /** A character of a quoted text, as it stands or behind a backslash. */
  datatype Piece = Bare(c: char) | Escaped(c: char)

  predicate PieceFits(p: Piece, quote: char) {
    if p.Bare? then p.c != quote && p.c != '\\' else p.c == quote || p.c == '\\'
  }

  predicate Fit(ps: seq<Piece>, quote: char) {
    forall i | 0 <= i < |ps| :: PieceFits(ps[i], quote)
  }

  function WrittenOne(p: Piece): string {
    if p.Bare? then [p.c] else ['\\', p.c]
  }

  function Written(ps: seq<Piece>): string {
    if ps == [] then ""
    else WrittenOne(ps[0]) + Written(ps[1..])
  }

  function Meant(ps: seq<Piece>): string {
    seq(|ps|, i requires 0 <= i < |ps| => ps[i].c)
  }

  /** The text has `w` at `i`. */
  predicate Has(s: string, i: nat, w: string) {
    i + |w| <= |s| && s[i..i + |w|] == w
  }

  /** What follows the pieces: their quote, a character that cannot be escaped, or the end. */
  datatype Ending = Closed | Misescaped(c: char) | Cut

  predicate EndsSo(s: string, at: nat, quote: char, e: Ending) {
    match e
    case Closed => at < |s| && s[at] == quote
    case Misescaped(c) => at + 1 < |s| && s[at] == '\\' && s[at + 1] == c && c != quote && c != '\\'
    case Cut => at == |s| || (at + 1 == |s| && s[at] == '\\')
  }

  /** The reading of a text that goes on at `at` after its pieces. */
  function ReadingOf(s: string, at: nat, meant: string, e: Ending): QuotedRead {
    match e
    case Closed => Text(meant, at + 1)
    case Misescaped(_) => Bad(QuoteEscape(at + 1))
    case Cut => Bad(QuoteExpectedEnd(|s|))
  }

  lemma Halves(s: string, i: nat, a: string, b: string)
    ensures Has(s, i, a + b) <==> Has(s, i, a) && Has(s, i + |a|, b)
  {
    if i + |a + b| <= |s| {
      var text := s[i..i + |a + b|];
      assert text[..|a|] == s[i..i + |a|] && text[|a|..] == s[i + |a|..i + |a| + |b|];
      assert text == text[..|a|] + text[|a|..];
    }
  }

  lemma FirstPiece(ps: seq<Piece>, quote: char)
    requires ps != []
    ensures Written(ps) == WrittenOne(ps[0]) + Written(ps[1..])
    ensures Meant(ps) == [ps[0].c] + Meant(ps[1..])
    ensures Fit(ps, quote) <==> PieceFits(ps[0], quote) && Fit(ps[1..], quote)
  {
    hide WrittenOne, PieceFits;
    assert forall i | 0 < i < |ps| :: ps[i] == ps[1..][i - 1];
  }

  /** A piece is read as its character. */
  lemma FirstReads(s: string, i: nat, p: Piece, quote: char)
    requires quote != '\\' && PieceFits(p, quote) && Has(s, i, WrittenOne(p))
    ensures |WrittenOne(p)| > 0 && ReadUntil(s, i, quote) == Prepend(p.c, ReadUntil(s, i + |WrittenOne(p)|, quote))
  {
    var text := s[i..i + |WrittenOne(p)|];
    assert text[0] == s[i] && (p.Escaped? ==> text[1] == s[i + 1]);
  }

  lemma {:induction false} PiecesDecide(s: string, i: nat, quote: char, ps: seq<Piece>, e: Ending)
    requires quote != '\\' && Fit(ps, quote) && Has(s, i, Written(ps)) && EndsSo(s, i + |Written(ps)|, quote, e)
    ensures i <= |s| && ReadUntil(s, i, quote) == ReadingOf(s, i + |Written(ps)|, Meant(ps), e)
    decreases |ps|
  {
    if ps == [] {
      NoPieces(s, i, quote, e);
    } else {
      hide Has, Written, WrittenOne, PieceFits, Fit, Meant, EndsSo, ReadingOf, ReadUntil, Prepend;
      var one, rest := WrittenOne(ps[0]), Written(ps[1..]);
      FirstPiece(ps, quote);
      Halves(s, i, one, rest);
      PiecesDecide(s, i + |one|, quote, ps[1..], e);
      FirstReads(s, i, ps[0], quote);
      PrependReading(s, i + |Written(ps)|, ps[0].c, Meant(ps[1..]), e);
    }
  }

  lemma NoPieces(s: string, i: nat, quote: char, e: Ending)
    requires quote != '\\' && i <= |s| && EndsSo(s, i, quote, e)
    ensures ReadUntil(s, i, quote) == ReadingOf(s, i, "", e)
  {
  }

  lemma PrependReading(s: string, at: nat, c: char, meant: string, e: Ending)
    ensures Prepend(c, ReadingOf(s, at, meant, e)) == ReadingOf(s, at, [c] + meant, e)
  {
  }

  /** From any place a text either stops or has another piece. */
  lemma StopsOrGoesOn(s: string, i: nat, quote: char) returns (e: Option<Ending>, p: Piece)
    requires quote != '\\' && i <= |s|
    ensures e.Some? ==> EndsSo(s, i, quote, e.value)
    ensures e == None ==> PieceFits(p, quote) && Has(s, i, WrittenOne(p)) && |WrittenOne(p)| > 0
  {
    e, p := None, Bare(quote);
    if i == |s| || (s[i] == '\\' && i + 1 == |s|) {
      e := Some(Cut);
    } else if s[i] == quote {
      e := Some(Closed);
    } else if s[i] != '\\' {
      p := Bare(s[i]);
      assert s[i..i + 1] == WrittenOne(p);
    } else if s[i + 1] == quote || s[i + 1] == '\\' {
      p := Escaped(s[i + 1]);
      assert s[i..i + 2] == WrittenOne(p);
    } else {
      e := Some(Misescaped(s[i + 1]));
    }
  }

  lemma {:induction false} PiecesOf(s: string, i: nat, quote: char) returns (ps: seq<Piece>, e: Ending)
    requires quote != '\\' && i <= |s|
    ensures Fit(ps, quote) && Has(s, i, Written(ps)) && EndsSo(s, i + |Written(ps)|, quote, e)
    decreases |s| - i
  {
    var end, p := StopsOrGoesOn(s, i, quote);
    if end.Some? {
      ps, e := [], end.value;
    } else {
      hide WrittenOne, Written, Fit, PieceFits, EndsSo;
      var more;
      more, e := PiecesOf(s, i + |WrittenOne(p)|, quote);
      ps := [p] + more;
      assert ps[1..] == more;
      FirstPiece(ps, quote);
      Halves(s, i, WrittenOne(p), Written(more));
    }
  }

  /**
   Reading a quoted text: it can be cut into pieces, each a character that needs no
   backslash or an escaped quote or backslash, followed by the quote, by an escape of
   anything else or by the end; and whichever way it is cut, the reading is the text the
   pieces mean, or the fault of what follows them, at its place.
   */
  lemma QuotedReading(s: string, i: nat, quote: char) returns (ps: seq<Piece>, e: Ending)
    requires quote != '\\' && i <= |s|
    ensures Fit(ps, quote) && Has(s, i, Written(ps)) && EndsSo(s, i + |Written(ps)|, quote, e)
    ensures ReadUntil(s, i, quote) ==
            match e
            case Closed => Text(Meant(ps), i + |Written(ps)| + 1)
            case Misescaped(_) => Bad(QuoteEscape(i + |Written(ps)| + 1))
            case Cut => Bad(QuoteExpectedEnd(|s|))
  {
    hide ReadUntil, Written, Meant, Fit, Has, EndsSo;
    ps, e := PiecesOf(s, i, quote);
    PiecesDecide(s, i, quote, ps, e);
  }

  // ----- where a value ends

  /** Between characters a scan is outside any quotes, inside some, or just behind a backslash there. */
  datatype Mode = Outside | Inside(quote: char) | Behind(quote: char)

  datatype State = State(mode: Mode, depth: int)

  function Next(st: State, c: char): State {
    match st.mode
    case Outside =>
      if c == '{' || c == '[' then st.(depth := st.depth + 1)
      else if c == '}' || c == ']' then st.(depth := st.depth - 1)
      else if c == '"' || c == '\'' then st.(mode := Inside(c))
      else st
    case Inside(q) => if c == '\\' then st.(mode := Behind(q)) else if c == q then st.(mode := Outside) else st
    case Behind(q) => st.(mode := Inside(q))
  }

  /** The state after the first `n` characters. */
  function Scanned(s: string, n: nat): State
    requires n <= |s|
  {
    if n == 0 then State(Outside, 0) else Next(Scanned(s, n - 1), s[n - 1])
  }

  /** Whether character `n - 1` is a closing bracket, outside quotes, that balances the brackets before it. */
  predicate Balances(s: string, n: nat)
    requires n <= |s|
  {
    n > 0 && Scanned(s, n - 1).mode == Outside && (s[n - 1] == '}' || s[n - 1] == ']') && Scanned(s, n).depth == 0
  }

  /** The rest of a text, from `i` inside quotes on, is outside them first after `r` characters. */
  ghost predicate FirstOutside(s: string, i: nat, depth: int, r: Option<nat>)
    requires i <= |s|
  {
    && (r.Some? ==>
          && i + r.value <= |s| && Scanned(s, i + r.value) == State(Outside, depth)
          && forall k | i <= k < i + r.value :: Scanned(s, k).mode != Outside)
    && (r == None ==> forall k | i <= k <= |s| :: Scanned(s, k).mode != Outside)
  }

  lemma LaterOutside(s: string, i: nat, depth: int, n: nat, r: Option<nat>)
    requires i + n <= |s| && FirstOutside(s, i + n, depth, r)
    requires forall k | i <= k < i + n :: Scanned(s, k).mode != Outside
    ensures FirstOutside(s, i, depth, Add(n, r))
  {
    hide Scanned;
  }

  lemma InsideStep(s: string, i: nat)
    requires i < |s| && Scanned(s, i).mode.Inside?
    ensures var st := Scanned(s, i);
            && (s[i] == '\\' ==> Scanned(s, i + 1).mode.Behind? && (i + 1 < |s| ==> Scanned(s, i + 2) == st))
            && (s[i] != '\\' ==> Scanned(s, i + 1) == if s[i] == st.mode.quote then State(Outside, st.depth) else st)
  {
  }

  lemma QuoteEnds(s: string, i: nat, depth: int)
    requires i < |s| && Scanned(s, i).mode != Outside && Scanned(s, i + 1) == State(Outside, depth)
    ensures FirstOutside(s, i, depth, Some(1))
  {
    hide Scanned;
  }

  lemma QuoteCut(s: string, i: nat, depth: int)
    requires i <= |s| && forall k | i <= k <= |s| :: Scanned(s, k).mode != Outside
    ensures FirstOutside(s, i, depth, None)
  {
  }

  lemma {:induction false} InsideQuotes(s: string, i: nat)
    requires i <= |s| && Scanned(s, i).mode.Inside?
    ensures FirstOutside(s, i, Scanned(s, i).depth, QuotedLength(s[i..], Scanned(s, i).mode.quote))
    decreases |s| - i
  {
    hide QuotedLength, Scanned, FirstOutside, Add;
    var st := Scanned(s, i);
    QuotedAt(s, i, st.mode.quote);
    if i == |s| {
      QuoteCut(s, i, st.depth);
    } else {
      InsideStep(s, i);
      if s[i] == '\\' && i + 1 == |s| {
        QuoteCut(s, i, st.depth);
      } else if s[i] == st.mode.quote && s[i] != '\\' {
        QuoteEnds(s, i, st.depth);
      } else {
        var n := if s[i] == '\\' then 2 else 1;
        InsideQuotes(s, i + n);
        LaterOutside(s, i, st.depth, n, QuotedLength(s[i + n..], st.mode.quote));
      }
    }
  }

  lemma OutsideStep(s: string, i: nat)
    requires i < |s| && Scanned(s, i).mode == Outside
    ensures var d := Scanned(s, i).depth;
            Scanned(s, i + 1) == if Opens(s[i]) then State(Outside, d + 1)
            else if Closes(s[i]) then State(Outside, d - 1)
            else if Quotes(s[i]) then State(Inside(s[i]), d) else State(Outside, d)
    ensures Balances(s, i + 1) <==> Closes(s[i]) && Scanned(s, i).depth == 1
  {
  }

  /** The rest of a text, from `i` on, balances first after `r` characters. */
  ghost predicate FirstBalance(s: string, i: nat, r: Option<nat>)
    requires i <= |s|
  {
    && (r.Some? ==>
          i + r.value <= |s| && Balances(s, i + r.value) && forall k | i < k < i + r.value :: !Balances(s, k))
    && (r == None ==> forall k | i < k <= |s| :: !Balances(s, k))
  }

  lemma Later(s: string, i: nat, n: nat, r: Option<nat>)
    requires i + n <= |s| && (forall k | i < k <= i + n :: !Balances(s, k)) && FirstBalance(s, i + n, r)
    ensures FirstBalance(s, i, Add(n, r))
  {
  }

  lemma {:induction false} OutsideQuotes(s: string, i: nat)
    requires i <= |s| && Scanned(s, i).mode == Outside
    ensures FirstBalance(s, i, BalancedLength(s[i..], Scanned(s, i).depth))
    decreases |s| - i
  {
    hide QuotedLength, BalancedLength, Scanned, Balances, Opens, Closes, FirstBalance, Add;
    BalancedAt(s, i, Scanned(s, i).depth);
    if i == |s| {
      NoneBeyond(s);
    } else {
      OutsideStep(s, i);
      if Quotes(s[i]) {
        QuotesPass(s, i);
      } else if Closes(s[i]) && Scanned(s, i).depth == 1 {
        BalanceHere(s, i);
      } else {
        Classes(s[i]);
        OutsideQuotes(s, i + 1);
        Later(s, i, 1, BalancedLength(s[i + 1..], Scanned(s, i + 1).depth));
      }
    }
  }

  lemma Classes(c: char)
    ensures !(Opens(c) && Closes(c)) && (Quotes(c) ==> !Opens(c) && !Closes(c))
    ensures IsPlain(c) <==> !Opens(c) && !Closes(c) && !Quotes(c)
  {
  }

  lemma NoneBeyond(s: string)
    ensures FirstBalance(s, |s|, None)
  {
  }

  lemma BalanceHere(s: string, i: nat)
    requires i < |s| && Balances(s, i + 1)
    ensures FirstBalance(s, i, Some(1))
  {
  }

  /** No bracket balances inside quotes, nor at their ends. */
  lemma {:induction false} QuotesPass(s: string, i: nat)
    requires i < |s| && Scanned(s, i).mode == Outside && Quotes(s[i])
    ensures FirstBalance(s, i, BalancedLength(s[i..], Scanned(s, i).depth))
    decreases |s| - i, 0
  {
    hide QuotedLength, BalancedLength, Opens, Closes, Balances, FirstBalance;
    var d, q := Scanned(s, i).depth, QuotedLength(s[i + 1..], s[i]);
    OutsideStep(s, i);
    Classes(s[i]);
    InsideQuotes(s, i + 1);
    QuoteAt(s, i, d);
    if q.Some? {
      var end := i + 1 + q.value;
      forall k | i < k <= end ensures !Balances(s, k) { if k > i + 1 { NotBalanced(s, k); } }
      OutsideQuotes(s, end);
      Later(s, i, 1 + q.value, BalancedLength(s[end..], d));
    } else {
      forall k | i < k <= |s| ensures !Balances(s, k) { if k > i + 1 { NotBalanced(s, k); } }
      NeverBalanced(s, i);
    }
  }

  lemma NotBalanced(s: string, k: nat)
    requires 0 < k <= |s| && Scanned(s, k - 1).mode != Outside
    ensures !Balances(s, k)
  {
  }

  lemma NeverBalanced(s: string, i: nat)
    requires i <= |s| && forall k | i < k <= |s| :: !Balances(s, k)
    ensures FirstBalance(s, i, None)
  {
  }

  lemma {:induction false} UnquotedRun(s: string)
    ensures var n := UnquotedLength(s);
            (forall k | 0 <= k < n :: AllowedUnquoted(s[k])) && (n < |s| ==> !AllowedUnquoted(s[n]))
    decreases |s|
  {
    if s == "" || !AllowedUnquoted(s[0]) {
    } else {
      UnquotedRun(s[1..]);
      assert forall k | 0 < k < |s| :: s[k] == s[1..][k - 1];
    }
  }

  /**
   The value a text begins with: from an opening bracket to the first closing one, outside
   quotes, that balances; from a quote to where it is closed; otherwise as far as the
   characters may stand unquoted. There is none where that place is missing.
   */
  lemma ValueEnds(s: string)
    ensures s == "" ==> ValueLength(s) == None
    ensures s != "" && (s[0] == '{' || s[0] == '[') ==>
              match ValueLength(s)
              case Some(n) => n <= |s| && Balances(s, n) && forall k | 0 < k < n :: !Balances(s, k)
              case None => forall k | 0 < k <= |s| :: !Balances(s, k)
    ensures s != "" && (s[0] == '"' || s[0] == '\'') ==>
              match ValueLength(s)
              case Some(n) =>
                0 < n <= |s| && Scanned(s, n).mode == Outside && forall k | 0 < k < n :: Scanned(s, k).mode != Outside
              case None => forall k | 0 < k <= |s| :: Scanned(s, k).mode != Outside
    ensures s != "" && s[0] !in ['{', '[', '"', '\''] ==>
              match ValueLength(s)
              case Some(n) =>
                0 < n <= |s| && (forall k | 0 <= k < n :: AllowedUnquoted(s[k])) && (n < |s| ==> !AllowedUnquoted(s[n]))
              case None => !AllowedUnquoted(s[0])
  {
    hide BalancedLength, QuotedLength, UnquotedLength, AllowedUnquoted, Balances;
    if s == "" {
    } else if Opens(s[0]) {
      assert s[0..] == s;
      OutsideQuotes(s, 0);
    } else if Quotes(s[0]) {
      assert Scanned(s, 1) == State(Inside(s[0]), 0) by { assert Scanned(s, 0) == State(Outside, 0); }
      InsideQuotes(s, 1);
    } else {
      UnquotedRun(s);
    }
  }
}
