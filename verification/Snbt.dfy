/** Printing NBT as text, and the scanner by which a command line finds where such a text ends. */
module Snbt {
  import opened Wrappers
  import opened NbtTrees
  import opened Readers

  // ----- what is printed

  ghost predicate PrintsUnquoted(f: real -> string) {
    forall x: real :: f(x) != "" && forall i | 0 <= i < |f(x)| :: AllowedUnquoted(f(x)[i])
  }

  /** How a float is written: some non-empty text of unquoted characters. */
  type FloatText = f: real -> string | PrintsUnquoted(f) witness (x: real) => "0"

  function Decimal(n: int): (s: string)
    ensures s != "" && forall i | 0 <= i < |s| :: AllowedUnquoted(s[i])
    decreases if n < 0 then 1 - n else n
  {
    if n < 0 then "-" + Decimal(-n)
    else if n < 10 then [Digit(n)]
    else Decimal(n / 10) + [Digit(n % 10)]
  }

  function Digit(n: int): (c: char)
    requires 0 <= n < 10
    ensures '0' <= c <= '9'
  {
    (n + '0' as int) as char
  }

  /** A byte of an array, printed as a signed number. */
  function SignedByte(b: int): int {
    if b % 256 < 128 then b % 256 else b % 256 - 256
  }

  function Escape(s: string): string {
    if s == "" then ""
    else (if s[0] == '"' || s[0] == '\\' then ['\\', s[0]] else [s[0]]) + Escape(s[1..])
  }

  function Quoted(s: string): string {
    "\"" + Escape(s) + "\""
  }

  predicate SafeKey(key: string) {
    key != "" && forall i | 0 <= i < |key| :: AllowedUnquoted(key[i])
  }

  function PrintedKey(key: string): string {
    if SafeKey(key) then key else Quoted(key)
  }

  function Separator(n: nat): string {
    if n > 0 then ", " else ""
  }

  /** The first `n` numbers of an array. */
  function PrintedNumbers(ns: seq<int>, suffix: string, n: nat): string
    requires n <= |ns|
  {
    if n == 0 then ""
    else PrintedNumbers(ns, suffix, n - 1) + (Separator(n - 1) + (Decimal(ns[n - 1]) + suffix))
  }

  function SignedBytes(bs: seq<int>): (r: seq<int>)
    ensures |r| == |bs|
  {
    seq(|bs|, i requires 0 <= i < |bs| => SignedByte(bs[i]))
  }

  /** Byte order of strings. */
  predicate LexLeq(a: string, b: string) {
    a == [] || (b != [] && (a[0] < b[0] || (a[0] == b[0] && LexLeq(a[1..], b[1..]))))
  }

  ghost predicate InOrder(keys: seq<string>) {
    forall i, j | 0 <= i < j < |keys| :: LexLeq(keys[i], keys[j]) && keys[i] != keys[j]
  }

  lemma {:induction false} LexTotal(a: string, b: string)
    ensures LexLeq(a, b) || LexLeq(b, a)
    decreases |a|
  {
    if a == [] || b == [] || a[0] != b[0] {
    } else {
      LexTotal(a[1..], b[1..]);
    }
  }

  lemma {:induction false} LexTransitive(a: string, b: string, c: string)
    requires LexLeq(a, b) && LexLeq(b, c)
    ensures LexLeq(a, c)
    decreases |a|
  {
    if a != [] && a[0] == b[0] == c[0] { LexTransitive(a[1..], b[1..], c[1..]); }
  }

  ghost predicate IsLeast(k: string, keys: set<string>) {
    k in keys && forall x | x in keys :: LexLeq(k, x)
  }

  lemma {:induction false} LeastExists(keys: set<string>)
    requires keys != {}
    ensures exists k :: IsLeast(k, keys)
    decreases |keys|
  {
    var x :| x in keys;
    var rest := keys - {x};
    if rest == {} {
      LexTotal(x, x);
      assert keys == rest + {x} == {x};
      assert IsLeast(x, keys);
    } else {
      LeastExists(rest);
      var m :| IsLeast(m, rest);
      LexTotal(x, m);
      LexTotal(x, x);
      if LexLeq(m, x) {
        assert IsLeast(m, keys);
      } else {
        forall y | y in keys ensures LexLeq(x, y) {
          if y != x { LexTransitive(x, m, y); }
        }
        assert IsLeast(x, keys);
      }
    }
  }

  lemma {:induction false} LexAntisymmetric(a: string, b: string)
    requires LexLeq(a, b) && LexLeq(b, a)
    ensures a == b
    decreases |a|
  {
    if a == [] {
    } else {
      LexAntisymmetric(a[1..], b[1..]);
    }
  }

  /** The keys in ascending order. */
  ghost function SortedKeys(keys: set<string>): seq<string>
    decreases |keys|
  {
    if keys == {} then []
    else
      LeastExists(keys);
      var k :| IsLeast(k, keys);
      [k] + SortedKeys(keys - {k})
  }

  lemma {:induction false} SortedKeysAre(keys: set<string>)
    ensures forall k :: k in SortedKeys(keys) <==> k in keys
    ensures |SortedKeys(keys)| == |keys| && InOrder(SortedKeys(keys))
    decreases |keys|
  {
    hide LexLeq;
    if keys == {} {
    } else {
      LeastExists(keys);
      var first := SortedKeys(keys)[0];
      var tail := SortedKeys(keys - {first});
      assert IsLeast(first, keys) && SortedKeys(keys) == [first] + tail;
      SortedKeysAre(keys - {first});
      forall j | 0 <= j < |tail| ensures LexLeq(first, tail[j]) && first != tail[j] {
        assert tail[j] in tail;
      }
      FirstInOrder(first, tail);
    }
  }

  lemma FirstInOrder(first: string, tail: seq<string>)
    requires InOrder(tail) && forall j | 0 <= j < |tail| :: LexLeq(first, tail[j]) && first != tail[j]
    ensures InOrder([first] + tail)
  {
    hide LexLeq;
    var all := [first] + tail;
    forall i, j | 0 <= i < j < |all| ensures LexLeq(all[i], all[j]) && all[i] != all[j] {
      if i > 0 { assert all[i] == tail[i - 1] && all[j] == tail[j - 1]; } else { assert all[j] == tail[j - 1]; }
    }
  }

  ghost function Printed(t: Tree, f: FloatText): string
    decreases t, 0
  {
    match t
    case Comp(ms) => SortedKeysAre(ms.Keys); "{" + (PrintedMembers(t, SortedKeys(ms.Keys), |ms.Keys|, f) + "}")
    case List(ts) => "[" + (PrintedItems(t, |ts|, f) + "]")
    case Bytes(bs) => "[" + ("B; " + PrintedNumbers(SignedBytes(bs), "b", |bs|) + "]")
    case Ints(ns) => "[" + ("I; " + PrintedNumbers(ns, "", |ns|) + "]")
    case Longs(ns) => "[" + ("L; " + PrintedNumbers(ns, "l", |ns|) + "]")
    case Str(s) => Quoted(s)
    case _ => PrintedScalar(t, f)
  }

  function PrintedScalar(t: Tree, f: FloatText): (s: string)
    requires IsScalar(t) && !t.Str?
    ensures s != "" && forall i | 0 <= i < |s| :: AllowedUnquoted(s[i])
  {
    match t
    case Byte(n) => Decimal(n) + "b"
    case Short(n) => Decimal(n) + "s"
    case Int(n) => Decimal(n)
    case Long(n) => Decimal(n) + "l"
    case Float(x) => f(x) + "f"
    case Double(x) => f(x) + "d"
    case Bool(b) => if b then "1b" else "0b"
    case UByte(n) => Decimal(n)
  }

  ghost function PrintedItems(t: Tree, n: nat, f: FloatText): string
    requires t.List? && n <= |t.items|
    decreases t, 0, n
  {
    if n == 0 then ""
    else PrintedItems(t, n - 1, f) + (Separator(n - 1) + Printed(t.items[n - 1], f))
  }

  ghost function PrintedMembers(t: Tree, keys: seq<string>, n: nat, f: FloatText): string
    requires t.Comp? && n <= |keys| && forall k | k in keys :: k in t.members
    decreases t, 0, n
  {
    if n == 0 then ""
    else
      PrintedMembers(t, keys, n - 1, f) +
        (Separator(n - 1) + (PrintedKey(keys[n - 1]) + (": " + Printed(t.members[keys[n - 1]], f))))
  }

  // ----- where a printed value ends

  function Add(n: nat, r: Option<nat>): Option<nat> {
    if r == None then None else Some(n + r.value)
  }

  /** The length of a quoted text after its opening quote, closing quote included. */
  function QuotedLength(s: string, quote: char): (r: Option<nat>)
    ensures r.Some? ==> 0 < r.value <= |s|
  {
    if s == "" then None
    else if s[0] == '\\' then (if |s| == 1 then None else Add(2, QuotedLength(s[2..], quote)))
    else if s[0] == quote then Some(1)
    else Add(1, QuotedLength(s[1..], quote))
  }

  predicate Opens(c: char) {
    c == '{' || c == '['
  }

  predicate Closes(c: char) {
    c == '}' || c == ']'
  }

  predicate Quotes(c: char) {
    c == '"' || c == '\''
  }

  /** The length up to where the bracket depth comes back to zero, brackets inside quotes not counting. */
  function BalancedLength(s: string, depth: int): (r: Option<nat>)
    ensures r.Some? ==> 0 < r.value <= |s|
    decreases |s|
  {
    if s == "" then None
    else if Opens(s[0]) then Add(1, BalancedLength(s[1..], depth + 1))
    else if Closes(s[0]) then (if depth == 1 then Some(1) else Add(1, BalancedLength(s[1..], depth - 1)))
    else if Quotes(s[0]) then
      var q := QuotedLength(s[1..], s[0]);
      if q == None then None else Add(1 + q.value, BalancedLength(s[1 + q.value..], depth))
    else Add(1, BalancedLength(s[1..], depth))
  }

  function UnquotedLength(s: string): (n: nat)
    ensures n <= |s|
  {
    if s != "" && AllowedUnquoted(s[0]) then 1 + UnquotedLength(s[1..]) else 0
  }

  /** The length of the value a text begins with. */
  function ValueLength(s: string): (r: Option<nat>)
    ensures r.Some? ==> 0 < r.value <= |s|
  {
    if s == "" then None
    else if Opens(s[0]) then BalancedLength(s, 0)
    else if Quotes(s[0]) then Add(1, QuotedLength(s[1..], s[0]))
    else if UnquotedLength(s) == 0 then None
    else Some(UnquotedLength(s))
  }

  // ----- printed text inside brackets leaves the depth as it was

  lemma AddAdd(a: nat, b: nat, sum: nat, r: Option<nat>)
    requires sum == a + b
    ensures Add(a, Add(b, r)) == Add(sum, r)
  {
  }

  predicate IsPlain(c: char) {
    !Opens(c) && !Closes(c) && !Quotes(c)
  }

  lemma {:induction false} PlainSkips(p: string, rest: string, depth: int)
    requires forall i | 0 <= i < |p| :: IsPlain(p[i])
    ensures BalancedLength(p + rest, depth) == Add(|p|, BalancedLength(rest, depth))
    decreases |p|
  {
    if p == "" {
      assert p + rest == rest;
    } else {
      PlainSkips(p[1..], rest, depth);
      assert (p + rest)[1..] == p[1..] + rest;
    }
  }

  lemma {:induction false} EscapedEnds(s: string, rest: string)
    ensures QuotedLength(Escape(s) + ("\"" + rest), '"') == Some(|Escape(s)| + 1)
    decreases |s|
  {
    var close := "\"" + rest;
    if s == "" {
      assert Escape(s) + close == close;
    } else {
      EscapedEnds(s[1..], rest);
      var tail := Escape(s[1..]);
      var first := if s[0] == '"' || s[0] == '\\' then ['\\', s[0]] else [s[0]];
      assert Escape(s) == first + tail;
      Regroup(first, tail, close);
      QuotedFirst(first, tail + close);
    }
  }

  lemma QuotedFirst(first: string, more: string)
    requires (|first| == 2 && first[0] == '\\') || (|first| == 1 && first[0] != '\\' && first[0] != '"')
    ensures QuotedLength(first + more, '"') == Add(|first|, QuotedLength(more, '"'))
  {
    assert (first + more)[|first|..] == more;
  }

  lemma QuotedSkips(s: string, rest: string, depth: int)
    ensures BalancedLength(Quoted(s) + rest, depth) == Add(|Quoted(s)|, BalancedLength(rest, depth))
  {
    EscapedEnds(s, rest);
    var text := Quoted(s) + rest;
    assert text[1..] == Escape(s) + ("\"" + rest);
    assert text[|Quoted(s)|..] == rest;
  }

  lemma KeySkips(key: string, rest: string, depth: int)
    ensures BalancedLength(PrintedKey(key) + rest, depth) == Add(|PrintedKey(key)|, BalancedLength(rest, depth))
  {
    if SafeKey(key) { PlainSkips(key, rest, depth); } else { QuotedSkips(key, rest, depth); }
  }

  lemma Regroup(a: string, b: string, c: string)
    ensures (a + b) + c == a + (b + c)
  {
  }

  /** One piece after another. */
  lemma BothSkip(a: string, b: string, rest: string, depth: int)
    requires BalancedLength(a + (b + rest), depth) == Add(|a|, BalancedLength(b + rest, depth))
    requires BalancedLength(b + rest, depth) == Add(|b|, BalancedLength(rest, depth))
    ensures BalancedLength((a + b) + rest, depth) == Add(|a + b|, BalancedLength(rest, depth))
  {
    hide *;
    SameGrouping(a, b, rest, depth);
    AddAdd(|a|, |b|, |a + b|, BalancedLength(rest, depth));
  }

  lemma SameGrouping(a: string, b: string, rest: string, depth: int)
    ensures BalancedLength((a + b) + rest, depth) == BalancedLength(a + (b + rest), depth)
  {
    hide *;
    Regroup(a, b, rest);
  }

  lemma OpenStep(open: string, more: string, depth: int)
    requires |open| == 1 && Opens(open[0])
    ensures BalancedLength(open + more, depth) == Add(1, BalancedLength(more, depth + 1))
    ensures ValueLength(open + more) == BalancedLength(open + more, 0)
  {
    assert (open + more)[1..] == more;
  }

  lemma CloseStep(close: string, rest: string, depth: int)
    requires |close| == 1 && Closes(close[0])
    ensures BalancedLength(close + rest, depth) == if depth == 1 then Some(1)
            else Add(1, BalancedLength(rest, depth - 1))
  {
    assert (close + rest)[1..] == rest;
  }

  lemma Bracketing(open: string, inside: string, close: string, rest: string)
    ensures open + (inside + close) + rest == open + (inside + (close + rest))
  {
  }

  /** A bracketed piece, when what is inside leaves the depth as it was. */
  lemma BracketsSkip(open: string, inside: string, close: string, rest: string, depth: int)
    requires |open| == 1 && Opens(open[0]) && |close| == 1 && Closes(close[0]) && depth != 0
    requires BalancedLength(inside + (close + rest), depth + 1)
             == Add(|inside|, BalancedLength(close + rest, depth + 1))
    ensures BalancedLength(open + (inside + close) + rest, depth)
            == Add(|open + (inside + close)|, BalancedLength(rest, depth))
  {
    hide BalancedLength, ValueLength, Add;
    Bracketing(open, inside, close, rest);
    OpenStep(open, inside + (close + rest), depth);
    CloseStep(close, rest, depth + 1);
    AddAdd(|inside|, 1, |inside + close|, BalancedLength(rest, depth));
    AddAdd(1, |inside + close|, |open + (inside + close)|, BalancedLength(rest, depth));
  }

  lemma BracketsEnd(open: string, inside: string, close: string, rest: string)
    requires |open| == 1 && Opens(open[0]) && |close| == 1 && Closes(close[0])
    requires BalancedLength(inside + (close + rest), 1) == Add(|inside|, BalancedLength(close + rest, 1))
    ensures ValueLength(open + (inside + close) + rest) == Some(|open + (inside + close)|)
  {
    hide BalancedLength, ValueLength;
    Bracketing(open, inside, close, rest);
    OpenStep(open, inside + (close + rest), 0);
    CloseStep(close, rest, 1);
  }

  lemma {:induction false} NumbersPlain(ns: seq<int>, suffix: string, n: nat)
    requires n <= |ns| && forall i | 0 <= i < |suffix| :: AllowedUnquoted(suffix[i])
    ensures forall i | 0 <= i < |PrintedNumbers(ns, suffix, n)| :: IsPlain(PrintedNumbers(ns, suffix, n)[i])
  {
    hide Decimal;
    if n == 0 {
    } else {
      NumbersPlain(ns, suffix, n - 1);
    }
  }

  lemma NumbersSkip(letter: string, ns: seq<int>, suffix: string, rest: string, depth: int)
    requires forall i | 0 <= i < |suffix| :: AllowedUnquoted(suffix[i])
    requires forall i | 0 <= i < |letter| :: IsPlain(letter[i])
    ensures var body := letter + PrintedNumbers(ns, suffix, |ns|);
            BalancedLength(body + rest, depth) == Add(|body|, BalancedLength(rest, depth))
  {
    hide PrintedNumbers, BalancedLength;
    NumbersPlain(ns, suffix, |ns|);
    PlainSkips(letter + PrintedNumbers(ns, suffix, |ns|), rest, depth);
  }

  /** A printed value inside brackets is passed over as a whole. */
  lemma {:induction false} PrintedSkips(t: Tree, f: FloatText, rest: string, depth: int)
    requires depth > 0
    ensures BalancedLength(Printed(t, f) + rest, depth) == Add(|Printed(t, f)|, BalancedLength(rest, depth))
    decreases t, 1, 0
  {
    hide BalancedLength, PrintedItems, PrintedMembers, PrintedNumbers, PrintedScalar, Quoted;
    if t.Comp? {
      var keys := SortedKeys(t.members.Keys);
      SortedKeysAre(t.members.Keys);
      MembersSkip(t, keys, |keys|, f, "}" + rest, depth + 1);
      BracketsSkip("{", PrintedMembers(t, keys, |keys|, f), "}", rest, depth);
    } else if t.List? {
      ItemsSkip(t, |t.items|, f, "]" + rest, depth + 1);
      BracketsSkip("[", PrintedItems(t, |t.items|, f), "]", rest, depth);
    } else if IsArray(t) {
      ArraySkips(t, f, rest, depth);
    } else if t.Str? {
      QuotedSkips(t.text, rest, depth);
    } else {
      PlainSkips(PrintedScalar(t, f), rest, depth);
    }
  }

  lemma ArraySkips(t: Tree, f: FloatText, rest: string, depth: int)
    requires IsArray(t) && depth > 0
    ensures BalancedLength(Printed(t, f) + rest, depth) == Add(|Printed(t, f)|, BalancedLength(rest, depth))
  {
    hide BalancedLength, PrintedNumbers;
    var letter, ns, suffix := ArrayParts(t);
    NumbersSkip(letter, ns, suffix, "]" + rest, depth + 1);
    BracketsSkip("[", letter + PrintedNumbers(ns, suffix, |ns|), "]", rest, depth);
  }

  lemma ArrayParts(t: Tree) returns (letter: string, ns: seq<int>, suffix: string)
    requires IsArray(t)
    ensures forall i | 0 <= i < |suffix| :: AllowedUnquoted(suffix[i])
    ensures forall i | 0 <= i < |letter| :: IsPlain(letter[i])
    ensures forall f: FloatText :: Printed(t, f) == "[" + (letter + PrintedNumbers(ns, suffix, |ns|) + "]")
  {
    match t
    case Bytes(bs) => letter, ns, suffix := "B; ", SignedBytes(bs), "b";
    case Ints(xs) => letter, ns, suffix := "I; ", xs, "";
    case Longs(ls) => letter, ns, suffix := "L; ", ls, "l";
  }

  lemma {:induction false} ItemsSkip(t: Tree, n: nat, f: FloatText, rest: string, depth: int)
    requires t.List? && n <= |t.items| && depth > 0
    ensures BalancedLength(PrintedItems(t, n, f) + rest, depth)
            == Add(|PrintedItems(t, n, f)|, BalancedLength(rest, depth))
    decreases t, 0, n
  {
    hide BalancedLength, Printed;
    if n == 0 {
      assert PrintedItems(t, n, f) + rest == rest;
    } else {
      var sep, item := Separator(n - 1), Printed(t.items[n - 1], f);
      PrintedSkips(t.items[n - 1], f, rest, depth);
      PlainSkips(sep, item + rest, depth);
      BothSkip(sep, item, rest, depth);
      ItemsSkip(t, n - 1, f, sep + item + rest, depth);
      BothSkip(PrintedItems(t, n - 1, f), sep + item, rest, depth);
    }
  }

  lemma {:induction false} MembersSkip(t: Tree, keys: seq<string>, n: nat, f: FloatText, rest: string, depth: int)
    requires t.Comp? && n <= |keys| && depth > 0 && forall k | k in keys :: k in t.members
    ensures BalancedLength(PrintedMembers(t, keys, n, f) + rest, depth)
            == Add(|PrintedMembers(t, keys, n, f)|, BalancedLength(rest, depth))
    decreases t, 0, n
  {
    hide BalancedLength, Printed, PrintedKey;
    if n == 0 {
      assert PrintedMembers(t, keys, n, f) + rest == rest;
    } else {
      var k := keys[n - 1];
      var sep, key, value := Separator(n - 1), PrintedKey(k), Printed(t.members[k], f);
      PrintedSkips(t.members[k], f, rest, depth);
      PlainSkips(": ", value + rest, depth);
      BothSkip(": ", value, rest, depth);
      KeySkips(k, (": " + value) + rest, depth);
      BothSkip(key, ": " + value, rest, depth);
      PlainSkips(sep, (key + (": " + value)) + rest, depth);
      BothSkip(sep, key + (": " + value), rest, depth);
      MembersSkip(t, keys, n - 1, f, (sep + (key + (": " + value))) + rest, depth);
      BothSkip(PrintedMembers(t, keys, n - 1, f), sep + (key + (": " + value)), rest, depth);
    }
  }

  lemma {:induction false} UnquotedEnds(p: string, rest: string)
    requires forall i | 0 <= i < |p| :: AllowedUnquoted(p[i])
    requires rest == "" || !AllowedUnquoted(rest[0])
    ensures UnquotedLength(p + rest) == |p|
    decreases |p|
  {
    if p == "" {
      assert p + rest == rest;
    } else {
      UnquotedEnds(p[1..], rest);
      assert (p + rest)[1..] == p[1..] + rest;
    }
  }

  /**
     A printed value, followed by nothing or by a space, is taken to end exactly where it
     ends, whatever braces, quotes or backslashes its strings and keys hold.
   */
  lemma PrintedEnds(t: Tree, f: FloatText, rest: string)
    requires rest == "" || rest[0] == ' '
    ensures ValueLength(Printed(t, f) + rest) == Some(|Printed(t, f)|)
  {
    hide BalancedLength, PrintedItems, PrintedMembers, PrintedNumbers, PrintedScalar, ValueLength, Quoted;
    if t.Comp? {
      var keys := SortedKeys(t.members.Keys);
      SortedKeysAre(t.members.Keys);
      MembersSkip(t, keys, |keys|, f, "}" + rest, 1);
      BracketsEnd("{", PrintedMembers(t, keys, |keys|, f), "}", rest);
    } else if t.List? {
      ItemsSkip(t, |t.items|, f, "]" + rest, 1);
      BracketsEnd("[", PrintedItems(t, |t.items|, f), "]", rest);
    } else if IsArray(t) {
      var letter, ns, suffix := ArrayParts(t);
      NumbersSkip(letter, ns, suffix, "]" + rest, 1);
      BracketsEnd("[", letter + PrintedNumbers(ns, suffix, |ns|), "]", rest);
    } else if t.Str? {
      StringEnds(t.text, rest);
    } else {
      ScalarEnds(PrintedScalar(t, f), rest);
    }
  }

  lemma StringEnds(s: string, rest: string)
    ensures ValueLength(Quoted(s) + rest) == Some(|Quoted(s)|)
  {
    EscapedEnds(s, rest);
    assert (Quoted(s) + rest)[1..] == Escape(s) + ("\"" + rest);
  }

  lemma ScalarEnds(p: string, rest: string)
    requires p != "" && forall i | 0 <= i < |p| :: AllowedUnquoted(p[i])
    requires rest == "" || rest[0] == ' '
    ensures ValueLength(p + rest) == Some(|p|)
  {
    UnquotedEnds(p, rest);
    assert (p + rest)[0] == p[0];
  }

  /** Reading a printed string back gives the string. */
  lemma {:induction false} QuotedReadsBack(before: string, s: string, rest: string)
    ensures ReadUntil(before + Escape(s) + ("\"" + rest), |before|, '"') == Text(s, |before| + |Escape(s)| + 1)
    decreases |s|
  {
    var text := before + Escape(s) + ("\"" + rest);
    if s == "" {
      assert text[|before|] == '"';
    } else if s[0] == '"' || s[0] == '\\' {
      var b := before + ['\\', s[0]];
      QuotedReadsBack(b, s[1..], rest);
      Regroup(before, ['\\', s[0]], Escape(s[1..]));
    } else {
      var b := before + [s[0]];
      QuotedReadsBack(b, s[1..], rest);
      Regroup(before, [s[0]], Escape(s[1..]));
    }
  }

  // ----- the printer

  /** Collects the text; keys, numbers and types are not styled. */
  class PlainSink {
    var b: string

    constructor ()
      ensures b == ""
    {
      b := "";
    }

    method Emit(s: string)
      modifies this
      ensures b == old(b) + s
    {
      b := b + s;
    }
  }

  method WriteString(sink: PlainSink, s: string)
    modifies sink
    ensures sink.b == old(sink.b) + Quoted(s)
  {
    var inner := EscapeAll(s);
    sink.Emit("\"");
    sink.Emit(inner);
    sink.Emit("\"");
    Regroup(old(sink.b), "\"", inner);
    Regroup(old(sink.b), "\"" + inner, "\"");
  }

  method EscapeAll(s: string) returns (inner: string)
    ensures inner == Escape(s)
  {
    inner := "";
    assert s[0..] == s;
    for i := 0 to |s|
      invariant inner + Escape(s[i..]) == Escape(s)
    {
      EscapeNext(inner, s, i);
      if s[i] == '"' || s[i] == '\\' {
        inner := inner + ['\\'];
      }
      inner := inner + [s[i]];
    }
    assert inner == Escape(s);
  }

  lemma EscapeNext(inner: string, s: string, i: nat)
    requires i < |s|
    ensures (if s[i] == '"' || s[i] == '\\' then inner + ['\\'] + [s[i]] else inner + [s[i]]) + Escape(s[i + 1..])
            == inner + Escape(s[i..])
  {
    assert s[i..][0] == s[i] && s[i..][1..] == s[i + 1..];
    var tail := Escape(s[i + 1..]);
    if s[i] == '"' || s[i] == '\\' {
      assert Escape(s[i..]) == ['\\', s[i]] + tail;
      assert inner + ['\\'] + [s[i]] == inner + ['\\', s[i]];
      Regroup(inner, ['\\', s[i]], tail);
    } else {
      Regroup(inner, [s[i]], tail);
    }
  }

  method WriteKey(sink: PlainSink, key: string)
    modifies sink
    ensures sink.b == old(sink.b) + PrintedKey(key)
  {
    var safe := key != "";
    for i := 0 to |key|
      invariant safe <==> key != "" && forall k | 0 <= k < i :: AllowedUnquoted(key[k])
    {
      if !AllowedUnquoted(key[i]) {
        safe := false;
        break;
      }
    }
    if safe {
      sink.Emit(key);
      return;
    }
    WriteString(sink, key);
  }

  method WriteNumbers(sink: PlainSink, ns: seq<int>, suffix: string)
    modifies sink
    ensures sink.b == old(sink.b) + PrintedNumbers(ns, suffix, |ns|)
  {
    hide Decimal;
    for i := 0 to |ns|
      invariant sink.b == old(sink.b) + PrintedNumbers(ns, suffix, i)
    {
      ghost var before := sink.b;
      if i > 0 { sink.Emit(", "); }
      sink.Emit(Decimal(ns[i]));
      sink.Emit(suffix);
      Regroup(before + Separator(i), Decimal(ns[i]), suffix);
      Regroup(before, Separator(i), Decimal(ns[i]) + suffix);
      Regroup(old(sink.b), PrintedNumbers(ns, suffix, i), Separator(i) + (Decimal(ns[i]) + suffix));
    }
  }

  /** The keys of a compound, sorted. */
  method SortKeys(keys: set<string>) returns (sorted: seq<string>)
    ensures sorted == SortedKeys(keys)
  {
    sorted := [];
    var todo := keys;
    while todo != {}
      invariant sorted + SortedKeys(todo) == SortedKeys(keys)
      decreases |todo|
    {
      LeastExists(todo);
      var k :| k in todo && forall x | x in todo :: LexLeq(k, x);
      OneLeast(todo, k);
      sorted := sorted + [k];
      todo := todo - {k};
    }
  }

  lemma OneLeast(keys: set<string>, k: string)
    requires IsLeast(k, keys)
    ensures SortedKeys(keys) == [k] + SortedKeys(keys - {k})
  {
    hide LexLeq;
    LeastExists(keys);
    var first := SortedKeys(keys)[0];
    assert IsLeast(first, keys) && SortedKeys(keys) == [first] + SortedKeys(keys - {first});
    LexAntisymmetric(first, k);
  }

  lemma Bracketed(start: string, open: string, body: string, close: string)
    ensures start + open + body + close == start + (open + (body + close))
  {
  }

  method WriteArray(sink: PlainSink, letter: string, ns: seq<int>, suffix: string)
    modifies sink
    ensures sink.b == old(sink.b) + ("[" + (letter + PrintedNumbers(ns, suffix, |ns|) + "]"))
  {
    hide *;
    ghost var start, numbers := sink.b, PrintedNumbers(ns, suffix, |ns|);
    sink.Emit("[");
    sink.Emit(letter);
    WriteNumbers(sink, ns, suffix);
    sink.Emit("]");
    Bracketed(start, "[", letter + numbers, "]");
    Regroup(start + "[", letter, numbers);
  }

  /** Print a value, compounds in the order of their keys. */
  method WriteSNBT(sink: PlainSink, t: Tree, f: FloatText)
    modifies sink
    ensures sink.b == old(sink.b) + Printed(t, f)
    decreases t, 1
  {
    hide PrintedMembers, PrintedItems, PrintedNumbers, Quoted;
    match t {
      case Comp(ms) =>
        SortedKeysAre(ms.Keys);
        ghost var start, body := sink.b, PrintedMembers(t, SortedKeys(ms.Keys), |ms.Keys|, f);
        sink.Emit("{");
        WriteMembers(sink, t, f);
        sink.Emit("}");
        Bracketed(start, "{", body, "}");
      case List(ts) =>
        ghost var start := sink.b;
        sink.Emit("[");
        WriteItems(sink, t, f);
        sink.Emit("]");
        Bracketed(start, "[", PrintedItems(t, |ts|, f), "]");
      case Bytes(bs) =>
        WriteArray(sink, "B; ", SignedBytes(bs), "b");
      case Ints(ns) =>
        WriteArray(sink, "I; ", ns, "");
      case Longs(ns) =>
        WriteArray(sink, "L; ", ns, "l");
      case Str(s) =>
        WriteString(sink, s);
      case _ =>
        sink.Emit(PrintedScalar(t, f));
    }
  }

  method WriteItems(sink: PlainSink, t: Tree, f: FloatText)
    requires t.List?
    modifies sink
    ensures sink.b == old(sink.b) + PrintedItems(t, |t.items|, f)
    decreases t, 0
  {
    hide Printed;
    for i := 0 to |t.items|
      invariant sink.b == old(sink.b) + PrintedItems(t, i, f)
    {
      if i > 0 { sink.Emit(", "); }
      WriteSNBT(sink, t.items[i], f);
    }
  }

  method WriteMembers(sink: PlainSink, t: Tree, f: FloatText)
    requires t.Comp?
    modifies sink
    ensures forall k :: k in SortedKeys(t.members.Keys) <==> k in t.members
    ensures |SortedKeys(t.members.Keys)| == |t.members.Keys|
    ensures sink.b == old(sink.b) + PrintedMembers(t, SortedKeys(t.members.Keys), |t.members.Keys|, f)
    decreases t, 0, 1
  {
    hide Printed, SortedKeys, PrintedKey;
    SortedKeysAre(t.members.Keys);
    var keys := SortKeys(t.members.Keys);
    ghost var start := sink.b;
    for i := 0 to |keys|
      invariant sink.b == start + PrintedMembers(t, keys, i, f)
    {
      assert keys[i] in keys;
      WriteMember(sink, t, keys[i], i, f);
      MemberPrinted(start, t, keys, i, f);
    }
  }

  ghost function PrintedMember(t: Tree, key: string, i: nat, f: FloatText): string
    requires t.Comp? && key in t.members
  {
    Separator(i) + (PrintedKey(key) + (": " + Printed(t.members[key], f)))
  }

  lemma MemberPrinted(start: string, t: Tree, keys: seq<string>, i: nat, f: FloatText)
    requires t.Comp? && i < |keys| && forall k | k in keys :: k in t.members
    ensures start + PrintedMembers(t, keys, i + 1, f)
            == start + PrintedMembers(t, keys, i, f) + PrintedMember(t, keys[i], i, f)
  {
    hide Printed, PrintedKey, Separator;
    assert PrintedMembers(t, keys, i + 1, f) == PrintedMembers(t, keys, i, f) + PrintedMember(t, keys[i], i, f);
  }

  method WriteMember(sink: PlainSink, t: Tree, key: string, i: nat, f: FloatText)
    requires t.Comp? && key in t.members
    modifies sink
    ensures sink.b == old(sink.b) + PrintedMember(t, key, i, f)
    decreases t, 0, 0
  {
    hide Printed, PrintedKey;
    if i > 0 { sink.Emit(", "); }
    WriteKey(sink, key);
    sink.Emit(": ");
    WriteSNBT(sink, t.members[key], f);
  }

  method FormatSNBT(t: Tree, f: FloatText) returns (text: string)
    ensures text == Printed(t, f)
  {
    var sink := new PlainSink();
    WriteSNBT(sink, t, f);
    text := sink.b;
  }
}
