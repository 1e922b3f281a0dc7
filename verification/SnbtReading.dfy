/**
 A reader for printed NBT, written from the notation alone, and the proof that it gives
 back what was printed: braces and brackets, separators, keys, numbers and their suffixes.
 */
module SnbtReading {
  import opened Wrappers
  import opened NbtTrees
  import opened Readers
  import opened Snbt

  type Read<T> = Option<(T, string)>

  // ----- numbers

  /** The value of a string of decimal digits. */
  function DigitsValue(s: string): Option<nat> {
    if s == "" then None
    else
      var last := s[|s| - 1];
      if !('0' <= last <= '9') then None
      else if |s| == 1 then Some(last as int - '0' as int)
      else match DigitsValue(s[..|s| - 1])
        case None => None
        case Some(front) => Some(10 * front + (last as int - '0' as int))
  }

  /** A numeral: a minus sign or none, then digits. */
  function NumeralValue(s: string): Option<int> {
    var signed := s != "" && s[0] == '-';
    var digits := DigitsValue(if signed then s[1..] else s);
    if digits == None then None
    else
      var n: int := digits.value;
      Some(if signed then -n else n)
  }

  lemma {:induction false} DigitsReadBack(n: nat)
    ensures DigitsValue(Decimal(n)) == Some(n) && Decimal(n)[0] != '-'
    ensures '0' <= Decimal(n)[|Decimal(n)| - 1] <= '9'
  {
    if n < 10 {
      assert Decimal(n) == [Digit(n)];
    } else {
      DigitsReadBack(n / 10);
      var s := Decimal(n);
      assert s == Decimal(n / 10) + [Digit(n % 10)];
      assert s[..|s| - 1] == Decimal(n / 10);
    }
  }

  lemma NegativeDecimal(n: int)
    requires n < 0
    ensures Decimal(n) == "-" + Decimal(-n)
  {
  }

  /** Every integer is printed as its numeral. */
  lemma DecimalReadsBack(n: int)
    ensures NumeralValue(Decimal(n)) == Some(n)
    ensures '0' <= Decimal(n)[|Decimal(n)| - 1] <= '9'
  {
    hide Decimal, DigitsValue;
    if n < 0 {
      DigitsReadBack(-n);
      NegativeDecimal(n);
      assert Decimal(n)[1..] == Decimal(-n);
    } else {
      DigitsReadBack(n);
    }
  }

  // ----- the reader

  /** The longest run of unquoted characters a text begins with, and what follows it. */
  function Token(s: string): (r: (string, string))
    ensures s == r.0 + r.1
  {
    (s[..UnquotedEnd(s, 0)], s[UnquotedEnd(s, 0)..])
  }

  /** What follows `p`, if the text begins with it. */
  function Past(s: string, p: string): (r: Option<string>)
    ensures r.Some? ==> s == p + r.value
  {
    if p <= s then Some(s[|p|..]) else None
  }

  /** An unquoted word: the last character is a digit or says the type. */
  function ScalarOf(word: string, parse: string -> real): Option<Tree> {
    if word == "" then None
    else
      var body, last := word[..|word| - 1], word[|word| - 1];
      if last == 'f' then Some(Float(parse(body)))
      else if last == 'd' then Some(Double(parse(body)))
      else
        match NumeralValue(if '0' <= last <= '9' then word else body)
        case None => None
        case Some(n) =>
          if '0' <= last <= '9' then Some(Int(n))
          else if last == 'b' then Some(Byte(n))
          else if last == 's' then Some(Short(n))
          else if last == 'l' then Some(Long(n))
          else None
  }

  /** The text after an opening double quote, up to the closing one. */
  function Unescaped(s: string): (r: Read<string>)
    ensures r.Some? ==> |r.value.1| < |s|
  {
    if s == "" then None
    else if s[0] == '"' then Some(("", s[1..]))
    else if s[0] == '\\' then (if |s| == 1 then None else WithChar(s[1], Unescaped(s[2..])))
    else WithChar(s[0], Unescaped(s[1..]))
  }

  function WithChar(c: char, r: Read<string>): Read<string> {
    if r == None then None else Some(([c] + r.value.0, r.value.1))
  }

  /** A key: quoted, or an unquoted word. */
  function ReadKey(s: string): (r: Read<string>)
    ensures r.Some? ==> |r.value.1| < |s|
  {
    if s != "" && s[0] == '"' then Unescaped(s[1..])
    else
      var (word, rest) := Token(s);
      if word == "" then None else Some((word, rest))
  }

  function ReadValue(s: string, parse: string -> real): (r: Read<Tree>)
    ensures r.Some? ==> |r.value.1| < |s|
    decreases |s|, 1
  {
    if s == "" then None
    else if s[0] == '{' then
      match ReadMembers(s[1..], parse)
      case None => None
      case Some((ms, rest)) => Some((Comp(ms), rest))
    else if s[0] == '[' then
      if Past(s, "[B; ").Some? then ReadBytes(s[4..])
      else if Past(s, "[I; ").Some? then ReadInts(s[4..])
      else if Past(s, "[L; ").Some? then ReadLongs(s[4..])
      else
        match ReadItems(s[1..], parse)
        case None => None
        case Some((ts, rest)) => Some((List(ts), rest))
    else if s[0] == '"' then
      match Unescaped(s[1..])
      case None => None
      case Some((text, rest)) => Some((Str(text), rest))
    else
      var (word, rest) := Token(s);
      match ScalarOf(word, parse)
      case None => None
      case Some(t) => Some((t, rest))
  }

  function ReadBytes(s: string): (r: Read<Tree>)
    ensures r.Some? ==> |r.value.1| < |s|
  {
    match ReadNumbers(s, "b") case None => None case Some((ns, rest)) => Some((Bytes(ns), rest))
  }

  function ReadInts(s: string): (r: Read<Tree>)
    ensures r.Some? ==> |r.value.1| < |s|
  {
    match ReadNumbers(s, "") case None => None case Some((ns, rest)) => Some((Ints(ns), rest))
  }

  function ReadLongs(s: string): (r: Read<Tree>)
    ensures r.Some? ==> |r.value.1| < |s|
  {
    match ReadNumbers(s, "l") case None => None case Some((ns, rest)) => Some((Longs(ns), rest))
  }

  /** One number of a typed array. */
  function ReadNumber(s: string, suffix: string): (r: Read<int>)
    ensures r.Some? ==> |r.value.1| < |s|
  {
    var (word, rest) := Token(s);
    if |word| <= |suffix| || word[|word| - |suffix|..] != suffix then None
    else
      match NumeralValue(word[..|word| - |suffix|])
      case None => None
      case Some(n) => Some((n, rest))
  }

  /** The numbers up to the closing bracket. */
  function ReadNumbers(s: string, suffix: string): (r: Read<seq<int>>)
    ensures r.Some? ==> |r.value.1| < |s|
  {
    if Past(s, "]").Some? then Some(([], s[1..]))
    else
      match ReadNumber(s, suffix)
      case None => None
      case Some((n, rest)) =>
        match MoreNumbers(rest, suffix)
        case None => None
        case Some((ns, rest')) => Some(([n] + ns, rest'))
  }

  function MoreNumbers(s: string, suffix: string): (r: Read<seq<int>>)
    ensures r.Some? ==> |r.value.1| < |s|
  {
    if Past(s, "]").Some? then Some(([], s[1..]))
    else if Past(s, ", ") == None then None
    else
      match ReadNumber(s[2..], suffix)
      case None => None
      case Some((n, rest)) =>
        match MoreNumbers(rest, suffix)
        case None => None
        case Some((ns, rest')) => Some(([n] + ns, rest'))
  }

  /** The items of a list up to its closing bracket. */
  function ReadItems(s: string, parse: string -> real): (r: Read<seq<Tree>>)
    ensures r.Some? ==> |r.value.1| < |s|
    decreases |s|, 2
  {
    if Past(s, "]").Some? then Some(([], s[1..]))
    else
      match ReadValue(s, parse)
      case None => None
      case Some((t, rest)) =>
        match MoreItems(rest, parse)
        case None => None
        case Some((ts, rest')) => Some(([t] + ts, rest'))
  }

  function MoreItems(s: string, parse: string -> real): (r: Read<seq<Tree>>)
    ensures r.Some? ==> |r.value.1| < |s|
    decreases |s|, 0
  {
    if Past(s, "]").Some? then Some(([], s[1..]))
    else if Past(s, ", ") == None then None
    else
      match ReadValue(s[2..], parse)
      case None => None
      case Some((t, rest)) =>
        match MoreItems(rest, parse)
        case None => None
        case Some((ts, rest')) => Some(([t] + ts, rest'))
  }

  function ReadMember(s: string, parse: string -> real): (r: Read<(string, Tree)>)
    ensures r.Some? ==> |r.value.1| < |s|
    decreases |s|, 2
  {
    match ReadKey(s)
    case None => None
    case Some((key, rest)) =>
      if Past(rest, ": ") == None then None
      else
        match ReadValue(rest[2..], parse)
        case None => None
        case Some((t, rest')) => Some(((key, t), rest'))
  }

  /** The members of a compound up to its closing brace. */
  function ReadMembers(s: string, parse: string -> real): (r: Read<map<string, Tree>>)
    ensures r.Some? ==> |r.value.1| < |s|
    decreases |s|, 3
  {
    if Past(s, "}").Some? then Some((map[], s[1..]))
    else
      match ReadMember(s, parse)
      case None => None
      case Some((m, rest)) =>
        match MoreMembers(rest, parse)
        case None => None
        case Some((ms, rest')) => Some((map[m.0 := m.1] + ms, rest'))
  }

  function MoreMembers(s: string, parse: string -> real): (r: Read<map<string, Tree>>)
    ensures r.Some? ==> |r.value.1| < |s|
    decreases |s|, 0
  {
    if Past(s, "}").Some? then Some((map[], s[1..]))
    else if Past(s, ", ") == None then None
    else
      match ReadMember(s[2..], parse)
      case None => None
      case Some((m, rest)) =>
        match MoreMembers(rest, parse)
        case None => None
        case Some((ms, rest')) => Some((map[m.0 := m.1] + ms, rest'))
  }

  // ----- what is not told apart

  /** What printing keeps of a tag: a truth value is a byte, an unsigned byte an integer, bytes are signed. */
  function Normal(t: Tree): Tree
    decreases t
  {
    match t
    case Comp(ms) => Comp(map k | k in ms :: Normal(ms[k]))
    case List(ts) => List(seq(|ts|, i requires 0 <= i < |ts| => Normal(ts[i])))
    case Bytes(bs) =>
      Bytes(seq(|bs|, i requires 0 <= i < |bs| => if bs[i] % 256 < 128 then bs[i] % 256 else bs[i] % 256 - 256))
    case Bool(b) => Byte(if b then 1 else 0)
    case UByte(n) => Int(n)
    case _ => t
  }

  /** Reading float text gives the number back. */
  ghost predicate Inverts(parse: string -> real, f: FloatText) {
    forall x: real :: parse(f(x)) == x
  }

  predicate Delimits(rest: string) {
    rest == "" || !AllowedUnquoted(rest[0])
  }

  // ----- parts of printed text

  lemma Punctuation()
    ensures forall c :: c == ']' || c == '}' || c == ',' || c == ':' || c == ';' || c == '"' ==> !AllowedUnquoted(c)
  {
  }

  lemma Assoc(a: string, b: string, c: string)
    ensures a + (b + c) == a + b + c
  {
  }

  lemma PastIs(p: string, rest: string)
    ensures Past(p + rest, p) == Some(rest)
  {
  }

  lemma Closing(p: string, rest: string)
    requires |p| == 1
    ensures var s := p + rest;
            s != "" && s[0] == p[0] && Past(s, p).Some? && s[1..] == rest
  {
  }

  lemma NotPast(s: string, p: string)
    requires s != "" && p != "" && s[0] != p[0]
    ensures Past(s, p) == None
  {
  }

  lemma TokenIs(p: string, rest: string)
    requires (forall i | 0 <= i < |p| :: AllowedUnquoted(p[i])) && Delimits(rest)
    ensures Token(p + rest) == (p, rest)
  {
    WordEndsAt(p, rest, 0);
    assert (p + rest)[..|p|] == p && (p + rest)[|p|..] == rest;
  }

  lemma {:induction false} WordEndsAt(p: string, rest: string, i: nat)
    requires (forall k | 0 <= k < |p| :: AllowedUnquoted(p[k])) && Delimits(rest) && i <= |p|
    ensures UnquotedEnd(p + rest, i) == |p|
    decreases |p| - i
  {
    if i == |p| {
    } else {
      WordEndsAt(p, rest, i + 1);
    }
  }

  /** A scalar's text is read back as the scalar, up to what printing does not tell apart. */
  lemma ScalarReadsBack(t: Tree, f: FloatText, parse: string -> real)
    requires IsScalar(t) && !t.Str? && Inverts(parse, f)
    ensures ScalarOf(PrintedScalar(t, f), parse) == Some(Normal(t))
  {
    hide Decimal, ScalarOf;
    match t
    case Byte(n) => SuffixReads(n, 'b', parse);
    case Short(n) => SuffixReads(n, 's', parse);
    case Int(n) => IntegerReads(n, parse);
    case Long(n) => SuffixReads(n, 'l', parse);
    case Float(x) => FloatReads(f(x), 'f', parse);
    case Double(x) => FloatReads(f(x), 'd', parse);
    case Bool(b) => BoolText(b); SuffixReads(if b then 1 else 0, 'b', parse);
    case UByte(n) => IntegerReads(n, parse);
  }

  lemma FloatReads(text: string, suffix: char, parse: string -> real)
    ensures suffix == 'f' ==> ScalarOf(text + [suffix], parse) == Some(Float(parse(text)))
    ensures suffix == 'd' ==> ScalarOf(text + [suffix], parse) == Some(Double(parse(text)))
  {
    assert (text + [suffix])[..|text|] == text;
  }

  lemma IntegerReads(n: int, parse: string -> real)
    ensures ScalarOf(Decimal(n), parse) == Some(Int(n))
  {
    hide Decimal, NumeralValue;
    DecimalReadsBack(n);
  }

  lemma BoolText(b: bool)
    ensures (if b then "1b" else "0b") == Decimal(if b then 1 else 0) + "b"
  {
  }

  lemma SuffixReads(n: int, suffix: char, parse: string -> real)
    ensures suffix == 'b' ==> ScalarOf(Decimal(n) + [suffix], parse) == Some(Byte(n))
    ensures suffix == 's' ==> ScalarOf(Decimal(n) + [suffix], parse) == Some(Short(n))
    ensures suffix == 'l' ==> ScalarOf(Decimal(n) + [suffix], parse) == Some(Long(n))
  {
    hide Decimal, NumeralValue;
    DecimalReadsBack(n);
    assert (Decimal(n) + [suffix])[..|Decimal(n)|] == Decimal(n);
  }

  lemma {:induction false} EscapedReadsBack(s: string, rest: string)
    ensures Unescaped(Escape(s) + ("\"" + rest)) == Some((s, rest))
    decreases |s|
  {
    var close := "\"" + rest;
    if s == "" {
      assert Escape(s) + close == close;
      assert close[1..] == rest;
    } else {
      EscapedReadsBack(s[1..], rest);
      var first := if s[0] == '"' || s[0] == '\\' then ['\\', s[0]] else [s[0]];
      Assoc(first, Escape(s[1..]), close);
      var all := first + (Escape(s[1..]) + close);
      assert all[|first|..] == Escape(s[1..]) + close;
      assert [s[0]] + s[1..] == s;
    }
  }

  lemma QuotedReads(s: string, rest: string)
    ensures var text := Quoted(s) + rest;
            text != "" && text[0] == '"' && Unescaped(text[1..]) == Some((s, rest))
  {
    EscapedReadsBack(s, rest);
    assert (Quoted(s) + rest)[1..] == Escape(s) + ("\"" + rest);
  }

  lemma KeyReads(key: string, rest: string)
    requires Delimits(rest)
    ensures ReadKey(PrintedKey(key) + rest) == Some((key, rest))
  {
    hide Token, Unescaped, Quoted;
    var s := PrintedKey(key) + rest;
    if SafeKey(key) {
      TokenIs(key, rest);
      assert s[0] == key[0] && AllowedUnquoted(key[0]);
    } else {
      QuotedReads(key, rest);
      assert s == Quoted(key) + rest;
    }
  }

  // ----- typed arrays

  /** The numbers from the `i`th on, each with its separator. */
  function NumbersFrom(ns: seq<int>, suffix: string, i: nat): string
    requires i <= |ns|
    decreases |ns| - i
  {
    if i == |ns| then "" else ", " + (Decimal(ns[i]) + suffix + NumbersFrom(ns, suffix, i + 1))
  }

  lemma {:induction false} NumbersJoin(ns: seq<int>, suffix: string, i: nat)
    requires 1 <= i <= |ns|
    ensures PrintedNumbers(ns, suffix, |ns|) == PrintedNumbers(ns, suffix, i) + NumbersFrom(ns, suffix, i)
    decreases |ns| - i
  {
    hide Decimal;
    if i == |ns| {
      assert PrintedNumbers(ns, suffix, i) + "" == PrintedNumbers(ns, suffix, i);
    } else {
      NumbersJoin(ns, suffix, i + 1);
      var a, b, c := PrintedNumbers(ns, suffix, i), Decimal(ns[i]) + suffix, NumbersFrom(ns, suffix, i + 1);
      assert PrintedNumbers(ns, suffix, i + 1) == a + (", " + b);
      assert a + (", " + b) + c == a + (", " + (b + c));
    }
  }

  lemma NumberReads(n: int, suffix: string, rest: string)
    requires (forall i | 0 <= i < |suffix| :: AllowedUnquoted(suffix[i])) && Delimits(rest)
    ensures ReadNumber(Decimal(n) + suffix + rest, suffix) == Some((n, rest))
  {
    hide Decimal, NumeralValue, Token;
    var word := Decimal(n) + suffix;
    TokenIs(word, rest);
    DecimalReadsBack(n);
    assert word[..|word| - |suffix|] == Decimal(n) && word[|word| - |suffix|..] == suffix;
  }

  lemma {:induction false} MoreNumbersRead(ns: seq<int>, suffix: string, i: nat, rest: string)
    requires i <= |ns| && forall k | 0 <= k < |suffix| :: AllowedUnquoted(suffix[k])
    ensures var s := NumbersFrom(ns, suffix, i) + ("]" + rest);
            Delimits(s) && MoreNumbers(s, suffix) == Some((ns[i..], rest))
    decreases |ns| - i
  {
    hide Decimal, ReadNumber, Past;
    var s := NumbersFrom(ns, suffix, i) + ("]" + rest);
    if i == |ns| {
      Closing("]", rest);
      assert s == "]" + rest && s[0] == ']';
      Punctuation();
      assert ns[i..] == [];
    } else {
      MoreNumbersRead(ns, suffix, i + 1, rest);
      var tail := NumbersFrom(ns, suffix, i + 1) + ("]" + rest);
      var number := Decimal(ns[i]) + suffix;
      assert s == ", " + (number + tail) && s[0] == ',';
      Punctuation();
      NotPast(s, "]");
      PastIs(", ", number + tail);
      assert s[2..] == number + tail;
      NumberReads(ns[i], suffix, tail);
      assert [ns[i]] + ns[i + 1..] == ns[i..];
    }
  }

  /** The numbers of an array are read back up to its closing bracket. */
  lemma NumbersRead(ns: seq<int>, suffix: string, rest: string)
    requires forall k | 0 <= k < |suffix| :: AllowedUnquoted(suffix[k])
    ensures ReadNumbers(PrintedNumbers(ns, suffix, |ns|) + ("]" + rest), suffix) == Some((ns, rest))
  {
    hide Decimal, ReadNumber, MoreNumbers, Past, PrintedNumbers, NumbersFrom;
    var s := PrintedNumbers(ns, suffix, |ns|) + ("]" + rest);
    if ns == [] {
      NoNumbers(ns, suffix);
      Closing("]", rest);
      assert s == "]" + rest;
    } else {
      var number, tail := Decimal(ns[0]) + suffix, NumbersFrom(ns, suffix, 1) + ("]" + rest);
      FirstNumber(ns, suffix, "]" + rest);
      MoreNumbersRead(ns, suffix, 1, rest);
      assert s == number + tail;
      DecimalAllowed(ns[0]);
      assert s[0] == Decimal(ns[0])[0];
      NotPast(s, "]");
      NumberReads(ns[0], suffix, tail);
      assert [ns[0]] + ns[1..] == ns;
    }
  }

  lemma NoNumbers(ns: seq<int>, suffix: string)
    requires ns == []
    ensures PrintedNumbers(ns, suffix, |ns|) == ""
  {
  }

  lemma FirstNumber(ns: seq<int>, suffix: string, rest: string)
    requires ns != []
    ensures PrintedNumbers(ns, suffix, |ns|) + rest == Decimal(ns[0]) + suffix + (NumbersFrom(ns, suffix, 1) + rest)
  {
    hide Decimal, NumbersFrom;
    NumbersJoin(ns, suffix, 1);
    assert PrintedNumbers(ns, suffix, 1) == Decimal(ns[0]) + suffix;
    Assoc(Decimal(ns[0]) + suffix, NumbersFrom(ns, suffix, 1), rest);
  }

  lemma DecimalAllowed(n: int)
    ensures Decimal(n) != "" && AllowedUnquoted(Decimal(n)[0])
  {
  }

  // ----- values

  lemma BytesAreSigned(bs: seq<int>)
    ensures Normal(Bytes(bs)) == Bytes(SignedBytes(bs))
  {
  }

  /** Text that begins with a bracket and then a value is not the header of a typed array. */
  lemma NotAHeader(first: string, more: string)
    requires first != "" && more != "" && more[0] != ';'
    requires first[0] == '{' || first[0] == '[' || first[0] == '"' ||
             forall k | 0 <= k < |first| :: AllowedUnquoted(first[k])
    ensures var s := "[" + (first + more);
            Past(s, "[B; ") == None && Past(s, "[I; ") == None && Past(s, "[L; ") == None
  {
    var s := "[" + (first + more);
    assert s[1] == first[0];
    if |first| > 1 {
      assert s[2] == first[1];
    } else {
      assert s[2] == more[0];
    }
  }

  /** What a printed value begins with. */
  lemma PrintedBegins(t: Tree, f: FloatText)
    ensures Printed(t, f) != ""
    ensures var p := Printed(t, f);
            p[0] == '{' || p[0] == '[' || p[0] == '"' || (forall k | 0 <= k < |p| :: AllowedUnquoted(p[k]))
    ensures Printed(t, f)[0] != ']' && Printed(t, f)[0] != '}' && Printed(t, f)[0] != ','
  {
    hide PrintedItems, PrintedMembers, PrintedNumbers, PrintedScalar;
  }

  /** The items from the `i`th on, each with its separator. */
  ghost function ItemsFrom(t: Tree, i: nat, f: FloatText): string
    requires t.List? && i <= |t.items|
    decreases |t.items| - i
  {
    if i == |t.items| then "" else ", " + (Printed(t.items[i], f) + ItemsFrom(t, i + 1, f))
  }

  lemma {:induction false} ItemsJoin(t: Tree, i: nat, f: FloatText)
    requires t.List? && 1 <= i <= |t.items|
    ensures PrintedItems(t, |t.items|, f) == PrintedItems(t, i, f) + ItemsFrom(t, i, f)
    decreases |t.items| - i
  {
    hide Printed;
    if i == |t.items| {
      assert PrintedItems(t, i, f) + "" == PrintedItems(t, i, f);
    } else {
      ItemsJoin(t, i + 1, f);
      var a, b, c := PrintedItems(t, i, f), Printed(t.items[i], f), ItemsFrom(t, i + 1, f);
      assert PrintedItems(t, i + 1, f) == a + (", " + b);
      assert a + (", " + b) + c == a + (", " + (b + c));
    }
  }

  /** The members from the `i`th on, each with its separator. */
  ghost function MembersFrom(t: Tree, keys: seq<string>, i: nat, f: FloatText): string
    requires t.Comp? && i <= |keys| && forall k | k in keys :: k in t.members
    decreases |keys| - i
  {
    if i == |keys| then "" else ", " + (MemberText(t, keys[i], f) + MembersFrom(t, keys, i + 1, f))
  }

  ghost function MemberText(t: Tree, key: string, f: FloatText): string
    requires t.Comp? && key in t.members
  {
    PrintedKey(key) + (": " + Printed(t.members[key], f))
  }

  lemma {:induction false} MembersJoin(t: Tree, keys: seq<string>, i: nat, f: FloatText)
    requires t.Comp? && 1 <= i <= |keys| && forall k | k in keys :: k in t.members
    ensures PrintedMembers(t, keys, |keys|, f) == PrintedMembers(t, keys, i, f) + MembersFrom(t, keys, i, f)
    decreases |keys| - i
  {
    hide Printed, PrintedKey;
    if i == |keys| {
      assert PrintedMembers(t, keys, i, f) + "" == PrintedMembers(t, keys, i, f);
    } else {
      MembersJoin(t, keys, i + 1, f);
      var a, b, c := PrintedMembers(t, keys, i, f), MemberText(t, keys[i], f), MembersFrom(t, keys, i + 1, f);
      assert PrintedMembers(t, keys, i + 1, f) == a + (", " + b);
      assert a + (", " + b) + c == a + (", " + (b + c));
    }
  }

  /** The normal items from the `i`th on. */
  function NormalFrom(t: Tree, i: nat): (ts: seq<Tree>)
    requires t.List? && i <= |t.items|
    ensures |ts| == |t.items| - i && forall k | 0 <= k < |ts| :: ts[k] == Normal(t.items[i + k])
  {
    seq(|t.items| - i, k requires 0 <= k < |t.items| - i => Normal(t.items[i + k]))
  }

  /** The normal members with the keys from the `i`th on. */
  function NormalMembers(t: Tree, keys: seq<string>, i: nat): map<string, Tree>
    requires t.Comp? && i <= |keys| && forall k | k in keys :: k in t.members
  {
    map k | k in keys[i..] :: Normal(t.members[k])
  }

  /** Reading a printed value gives the value, up to what printing does not tell apart, and stops where it ends. */
  lemma {:induction false} ReadsBack(t: Tree, f: FloatText, parse: string -> real, rest: string)
    requires Inverts(parse, f) && Delimits(rest)
    ensures ReadValue(Printed(t, f) + rest, parse) == Some((Normal(t), rest))
    decreases t, 4, 0
  {
    hide ReadValue, Printed, Inverts, Normal;
    if t.Comp? {
      CompReadsBack(t, f, parse, rest);
    } else if t.List? {
      ListReadsBack(t, f, parse, rest);
    } else if IsArray(t) {
      ArrayReadsBack(t, f, parse, rest);
    } else if t.Str? {
      TextReadsBack(t, f, parse, rest);
    } else {
      WordReadsBack(t, f, parse, rest);
    }
  }

  lemma WordReadsBack(t: Tree, f: FloatText, parse: string -> real, rest: string)
    requires Inverts(parse, f) && Delimits(rest) && IsScalar(t) && !t.Str?
    ensures ReadValue(Printed(t, f) + rest, parse) == Some((Normal(t), rest))
  {
    hide Inverts, Normal, PrintedScalar, ScalarOf, Token;
    var p := PrintedScalar(t, f);
    assert Printed(t, f) == p;
    TokenIs(p, rest);
    ScalarReadsBack(t, f, parse);
    assert (p + rest)[0] == p[0] && AllowedUnquoted(p[0]);
  }

  lemma TextReadsBack(t: Tree, f: FloatText, parse: string -> real, rest: string)
    requires t.Str?
    ensures ReadValue(Printed(t, f) + rest, parse) == Some((Normal(t), rest))
  {
    hide Unescaped, Quoted;
    QuotedReads(t.text, rest);
  }

  lemma ArrayReadsBack(t: Tree, f: FloatText, parse: string -> real, rest: string)
    requires IsArray(t)
    ensures ReadValue(Printed(t, f) + rest, parse) == Some((Normal(t), rest))
  {
    hide PrintedNumbers, ReadNumbers, SignedBytes, Past;
    var s := Printed(t, f) + rest;
    match t
    case Bytes(bs) =>
      BytesAreSigned(bs);
      HeaderReads("B; ", SignedBytes(bs), "b", rest);
      OnlyHeader(s, "[B; ");
    case Ints(ns) =>
      HeaderReads("I; ", ns, "", rest);
      OnlyHeader(s, "[I; ");
    case Longs(ns) =>
      HeaderReads("L; ", ns, "l", rest);
      OnlyHeader(s, "[L; ");
  }

  lemma OnlyHeader(s: string, header: string)
    requires |s| > 4 && |header| == 4 && s[..4] == header
    ensures forall other: string | |other| == 4 :: Past(s, other).Some? <==> other == header
  {
  }

  lemma HeaderReads(letter: string, ns: seq<int>, suffix: string, rest: string)
    requires |letter| == 3 && forall k | 0 <= k < |suffix| :: AllowedUnquoted(suffix[k])
    ensures var s := "[" + (letter + PrintedNumbers(ns, suffix, |ns|) + "]") + rest;
            && s != "" && s[0] == '[' && |s| > 4 && s[..4] == "[" + letter
            && ReadNumbers(s[4..], suffix) == Some((ns, rest))
  {
    hide PrintedNumbers, ReadNumbers;
    var p := PrintedNumbers(ns, suffix, |ns|);
    var s := "[" + (letter + p + "]") + rest;
    assert s == "[" + letter + (p + ("]" + rest));
    assert s[4..] == p + ("]" + rest);
    NumbersRead(ns, suffix, rest);
  }

  /** An item after a separator, and what follows it. */
  lemma ItemStep(item: string, tail: string, parse: string -> real, v: Tree, vs: seq<Tree>, rest: string)
    requires ReadValue(item + tail, parse) == Some((v, tail)) && MoreItems(tail, parse) == Some((vs, rest))
    ensures MoreItems(", " + (item + tail), parse) == Some(([v] + vs, rest))
    ensures item + tail != "" && item != "" && item[0] != ']' ==>
            ReadItems(item + tail, parse) == Some(([v] + vs, rest))
  {
    hide ReadValue, Past;
    var s := ", " + (item + tail);
    NotPast(s, "]");
    PastIs(", ", item + tail);
    assert s[2..] == item + tail;
    if item != "" && item[0] != ']' { NotPast(item + tail, "]"); }
  }

  lemma NoItems(parse: string -> real, rest: string)
    ensures var s := "]" + rest;
            MoreItems(s, parse) == Some(([], rest)) && ReadItems(s, parse) == Some(([], rest))
  {
    Closing("]", rest);
  }

  lemma {:induction false} MoreItemsRead(t: Tree, i: nat, f: FloatText, parse: string -> real, rest: string)
    requires t.List? && i <= |t.items| && Inverts(parse, f)
    ensures var s := ItemsFrom(t, i, f) + ("]" + rest);
            s != "" && Delimits(s) && s[0] != ';' && MoreItems(s, parse) == Some((NormalFrom(t, i), rest))
    decreases t, 0, |t.items| - i
  {
    hide ReadValue, MoreItems, Printed, Inverts, Normal;
    var s := ItemsFrom(t, i, f) + ("]" + rest);
    Punctuation();
    if i == |t.items| {
      NoItems(parse, rest);
      assert s == "]" + rest && s[0] == ']';
      assert NormalFrom(t, i) == [];
    } else {
      MoreItemsRead(t, i + 1, f, parse, rest);
      var tail := ItemsFrom(t, i + 1, f) + ("]" + rest);
      var item := Printed(t.items[i], f);
      assert s == ", " + (item + tail) && s[0] == ',';
      ReadsBack(t.items[i], f, parse, tail);
      ItemStep(item, tail, parse, Normal(t.items[i]), NormalFrom(t, i + 1), rest);
      assert [Normal(t.items[i])] + NormalFrom(t, i + 1) == NormalFrom(t, i);
    }
  }

  lemma FirstItem(t: Tree, f: FloatText, rest: string)
    requires t.List? && t.items != []
    ensures PrintedItems(t, |t.items|, f) + rest == Printed(t.items[0], f) + (ItemsFrom(t, 1, f) + rest)
  {
    hide Printed, ItemsFrom;
    ItemsJoin(t, 1, f);
    assert PrintedItems(t, 1, f) == Printed(t.items[0], f);
    Assoc(Printed(t.items[0], f), ItemsFrom(t, 1, f), rest);
  }

  lemma ItemsRead(t: Tree, f: FloatText, parse: string -> real, rest: string)
    requires t.List? && Inverts(parse, f)
    ensures var s := PrintedItems(t, |t.items|, f) + ("]" + rest);
            && ReadItems(s, parse) == Some((NormalFrom(t, 0), rest))
            && Past("[" + s, "[B; ") == None && Past("[" + s, "[I; ") == None && Past("[" + s, "[L; ") == None
    decreases t, 0, |t.items| + 1
  {
    hide ReadValue, ReadItems, Printed, Inverts, Past, MoreItems, Normal, ItemsFrom;
    var s := PrintedItems(t, |t.items|, f) + ("]" + rest);
    if t.items == [] {
      NoItems(parse, rest);
      assert s == "]" + rest;
      NotAHeaderAtAll(rest);
      assert NormalFrom(t, 0) == [];
    } else {
      var item, tail := Printed(t.items[0], f), ItemsFrom(t, 1, f) + ("]" + rest);
      FirstItem(t, f, "]" + rest);
      PrintedBegins(t.items[0], f);
      MoreItemsRead(t, 1, f, parse, rest);
      NotAHeader(item, tail);
      ReadsBack(t.items[0], f, parse, tail);
      ItemStep(item, tail, parse, Normal(t.items[0]), NormalFrom(t, 1), rest);
      assert [Normal(t.items[0])] + NormalFrom(t, 1) == NormalFrom(t, 0);
    }
  }

  lemma NotAHeaderAtAll(rest: string)
    ensures var s := "[" + ("]" + rest);
            Past(s, "[B; ") == None && Past(s, "[I; ") == None && Past(s, "[L; ") == None
  {
    assert ("[" + ("]" + rest))[1] == ']';
  }

  lemma ListReadsBack(t: Tree, f: FloatText, parse: string -> real, rest: string)
    requires t.List? && Inverts(parse, f)
    ensures ReadValue(Printed(t, f) + rest, parse) == Some((Normal(t), rest))
    decreases t, 0, |t.items| + 2
  {
    hide Inverts, PrintedItems, ReadItems, Past;
    ItemsRead(t, f, parse, rest);
    var inside := PrintedItems(t, |t.items|, f);
    var s := Printed(t, f) + rest;
    assert s == "[" + (inside + ("]" + rest));
    assert s[1..] == inside + ("]" + rest);
    assert NormalFrom(t, 0) == Normal(t).items;
  }

  // ----- compounds

  lemma MemberReads(t: Tree, key: string, f: FloatText, parse: string -> real, rest: string)
    requires t.Comp? && key in t.members && Inverts(parse, f) && Delimits(rest)
    ensures ReadMember(MemberText(t, key, f) + rest, parse) == Some(((key, Normal(t.members[key])), rest))
    decreases t, 0, 0
  {
    hide ReadValue, Printed, PrintedKey, ReadKey, Inverts, Past, Normal;
    var value := Printed(t.members[key], f);
    var after := ": " + (value + rest);
    assert MemberText(t, key, f) + rest == PrintedKey(key) + after;
    KeyReads(key, after);
    PastIs(": ", value + rest);
    assert after[2..] == value + rest;
    ReadsBack(t.members[key], f, parse, rest);
  }

  lemma OneMoreMember(t: Tree, keys: seq<string>, i: nat)
    requires t.Comp? && i < |keys| && forall k | k in keys :: k in t.members
    ensures NormalMembers(t, keys, i) == map[keys[i] := Normal(t.members[keys[i]])] + NormalMembers(t, keys, i + 1)
  {
    hide Normal;
    assert keys[i..] == [keys[i]] + keys[i + 1..];
  }

  /** A member after a separator, and what follows it. */
  lemma MemberStep(member: string, tail: string, parse: string -> real, m: (string, Tree), ms: map<string, Tree>,
                   rest: string)
    requires ReadMember(member + tail, parse) == Some((m, tail)) && MoreMembers(tail, parse) == Some((ms, rest))
    ensures MoreMembers(", " + (member + tail), parse) == Some((map[m.0 := m.1] + ms, rest))
    ensures member != "" && member[0] != '}' ==>
              ReadMembers(member + tail, parse) == Some((map[m.0 := m.1] + ms, rest))
  {
    hide ReadMember, Past;
    var s := ", " + (member + tail);
    NotPast(s, "}");
    PastIs(", ", member + tail);
    assert s[2..] == member + tail;
    if member != "" && member[0] != '}' { NotPast(member + tail, "}"); }
  }

  lemma NoMembers(parse: string -> real, rest: string)
    ensures var s := "}" + rest;
            MoreMembers(s, parse) == Some((map[], rest)) && ReadMembers(s, parse) == Some((map[], rest))
  {
    Closing("}", rest);
  }

  lemma {:induction false} MoreMembersRead(t: Tree, keys: seq<string>, i: nat, f: FloatText, parse: string -> real,
                                           rest: string)
    requires t.Comp? && i <= |keys| && (forall k | k in keys :: k in t.members) && Inverts(parse, f)
    ensures var s := MembersFrom(t, keys, i, f) + ("}" + rest);
            s != "" && Delimits(s) && MoreMembers(s, parse) == Some((NormalMembers(t, keys, i), rest))
    decreases t, 1, |keys| - i
  {
    hide ReadMember, MoreMembers, MemberText, Inverts, NormalMembers, Normal;
    var s := MembersFrom(t, keys, i, f) + ("}" + rest);
    Punctuation();
    if i == |keys| {
      NoMembers(parse, rest);
      assert s == "}" + rest && s[0] == '}';
      NoMoreMembers(t, keys);
    } else {
      MoreMembersRead(t, keys, i + 1, f, parse, rest);
      var tail := MembersFrom(t, keys, i + 1, f) + ("}" + rest);
      var member := MemberText(t, keys[i], f);
      assert s == ", " + (member + tail) && s[0] == ',';
      MemberReads(t, keys[i], f, parse, tail);
      MemberStep(member, tail, parse, (keys[i], Normal(t.members[keys[i]])), NormalMembers(t, keys, i + 1), rest);
      OneMoreMember(t, keys, i);
    }
  }

  lemma NoMoreMembers(t: Tree, keys: seq<string>)
    requires t.Comp? && forall k | k in keys :: k in t.members
    ensures NormalMembers(t, keys, |keys|) == map[]
  {
  }

  lemma FirstMember(t: Tree, keys: seq<string>, f: FloatText, rest: string)
    requires t.Comp? && keys != [] && forall k | k in keys :: k in t.members
    ensures PrintedMembers(t, keys, |keys|, f) + rest == MemberText(t, keys[0], f) + (MembersFrom(t, keys, 1, f) + rest)
  {
    hide Printed, MembersFrom, PrintedKey;
    MembersJoin(t, keys, 1, f);
    assert PrintedMembers(t, keys, 1, f) == MemberText(t, keys[0], f);
    Assoc(MemberText(t, keys[0], f), MembersFrom(t, keys, 1, f), rest);
  }

  /** A member's text begins with its key, not with a closing brace. */
  lemma MemberBegins(t: Tree, key: string, f: FloatText)
    requires t.Comp? && key in t.members
    ensures MemberText(t, key, f) != "" && MemberText(t, key, f)[0] != '}'
  {
    hide Printed;
    Punctuation();
  }

  lemma MembersRead(t: Tree, keys: seq<string>, f: FloatText, parse: string -> real, rest: string)
    requires t.Comp? && (forall k | k in keys :: k in t.members) && Inverts(parse, f)
    ensures ReadMembers(PrintedMembers(t, keys, |keys|, f) + ("}" + rest), parse)
            == Some((NormalMembers(t, keys, 0), rest))
    decreases t, 2, 0
  {
    hide ReadMember, ReadMembers, MemberText, MoreMembers, Inverts, NormalMembers, MembersFrom, Normal;
    var s := PrintedMembers(t, keys, |keys|, f) + ("}" + rest);
    if keys == [] {
      NoMembers(parse, rest);
      assert s == "}" + rest;
      NoMoreMembers(t, keys);
    } else {
      var member, tail := MemberText(t, keys[0], f), MembersFrom(t, keys, 1, f) + ("}" + rest);
      FirstMember(t, keys, f, "}" + rest);
      MemberBegins(t, keys[0], f);
      MoreMembersRead(t, keys, 1, f, parse, rest);
      MemberReads(t, keys[0], f, parse, tail);
      MemberStep(member, tail, parse, (keys[0], Normal(t.members[keys[0]])), NormalMembers(t, keys, 1), rest);
      OneMoreMember(t, keys, 0);
    }
  }

  lemma CompReadsBack(t: Tree, f: FloatText, parse: string -> real, rest: string)
    requires t.Comp? && Inverts(parse, f)
    ensures ReadValue(Printed(t, f) + rest, parse) == Some((Normal(t), rest))
    decreases t, 3, 0
  {
    hide Inverts, PrintedMembers, ReadMembers, SortedKeys;
    var keys := SortedKeys(t.members.Keys);
    SortedKeysAre(t.members.Keys);
    MembersRead(t, keys, f, parse, rest);
    var inside := PrintedMembers(t, keys, |keys|, f);
    var s := Printed(t, f) + rest;
    assert s == "{" + (inside + ("}" + rest));
    assert s[1..] == inside + ("}" + rest);
    assert keys[0..] == keys;
    assert NormalMembers(t, keys, 0) == Normal(t).members;
  }

  /** A text formatted by the printer is read back whole. */
  method FormatAndRead(t: Tree, f: FloatText, parse: string -> real) returns (r: Read<Tree>)
    requires Inverts(parse, f)
    ensures r == Some((Normal(t), ""))
  {
    var text := FormatSNBT(t, f);
    ReadsBack(t, f, parse, "");
    assert Printed(t, f) + "" == Printed(t, f);
    return ReadValue(text, parse);
  }
}
