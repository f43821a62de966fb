/** The exact bytes of the canonical printers: separators, escapes, numbers and key order spelled
    out, with no reference to the printer's own helpers. */
module JsonBytes {
  import opened JsonText
  import opened JsonCanonical
  import opened JsonOrder
  import LexOrder

  // ----- separators -----

  /** A grammar character is written as itself, with a blank after `,` and `:` in a spaced dialect. */
  function SpellOne(d: Dialect, t: Token): string
  {
    match t
    case Mark(c) => if d.spaced && (c == ',' || c == ':') then [c, ' '] else [c]
    case Content(c) => Escape(d, c)
  }

  function Spell(d: Dialect, ts: seq<Token>): string
  {
    if ts == [] then [] else SpellOne(d, ts[0]) + Spell(d, ts[1..])
  }

  lemma {:induction false} ShowSpells(d: Dialect, ts: seq<Token>)
    ensures Show(d, ts) == Spell(d, ts)
  {
    if ts != [] {
      ShowSpells(d, ts[1..]);
    }
  }

  /** The printed text is its token list spelled out: `{`, `"`, `:`, `,` and the rest each stand for
      themselves, followed by a blank only where the dialect has one. */
  lemma PrintSpellsTokens(d: Dialect, v: Json)
    ensures Print(d, v) == Spell(d, Tokens(v))
  {
    PrintShowsTokens(d, v);
    ShowSpells(d, Tokens(v));
  }

  lemma {:induction false} FramedMarksAreNotBlank(inside: bool, ts: seq<Token>, after: bool)
    requires Frames(inside, ts, after)
    ensures Mark(' ') !in ts
    decreases |ts|
  {
    if ts != [] {
      FramedMarksAreNotBlank(After(inside, ts[0]), ts[1..], after);
      assert ts == [ts[0]] + ts[1..];
    }
  }

  /** How often a character occurs. */
  function Occurs(c: char, s: string): nat
  {
    if s == [] then 0 else (if s[0] == c then 1 else 0) + Occurs(c, s[1..])
  }

  function BlanksInContent(ts: seq<Token>): nat
  {
    if ts == [] then 0 else (if ts[0] == Content(' ') then 1 else 0) + BlanksInContent(ts[1..])
  }

  lemma {:induction false} OccursConcat(c: char, s: string, t: string)
    ensures Occurs(c, s + t) == Occurs(c, s) + Occurs(c, t)
    decreases |s|
  {
    if s == [] {
      assert s + t == t;
    } else {
      assert (s + t)[1..] == s[1..] + t;
      OccursConcat(c, s[1..], t);
    }
  }

  lemma {:induction false} NoneOccurs(c: char, s: string)
    requires forall i :: 0 <= i < |s| ==> s[i] != c
    ensures Occurs(c, s) == 0
  {
    if s != [] {
      NoneOccurs(c, s[1..]);
    }
  }

  predicate NoBlank(s: string)
  {
    forall i :: 0 <= i < |s| ==> s[i] != ' '
  }

  lemma HexEscapeHasNoBlank(n: int)
    requires 0 <= n < 0x10000
    ensures NoBlank(HexEscape(n))
  {
    assert forall i :: 0 <= i < 16 ==> HEX[i] != ' ';
  }

  lemma EscapesHaveNoBlank(d: Dialect, c: char)
    requires c != ' '
    ensures NoBlank(Escape(d, c))
  {
    if ShortForm(c).None? && NeedsUnit(d, c) {
      if c as int < 0x10000 {
        UnitIsHexEscape(c as int);
        HexEscapeHasNoBlank(c as int);
      } else {
        var high, low := 0xD800 + (c as int - 0x10000) / 1024, 0xDC00 + (c as int - 0x10000) % 1024;
        UnitIsHexEscape(high);
        UnitIsHexEscape(low);
        HexEscapeHasNoBlank(high);
        HexEscapeHasNoBlank(low);
      }
    }
  }

  lemma OneBlank(d: Dialect, t: Token)
    requires !d.spaced && t != Mark(' ')
    ensures Occurs(' ', SpellOne(d, t)) == if t == Content(' ') then 1 else 0
  {
    if t == Content(' ') {
      assert SpellOne(d, t) == " ";
      assert SpellOne(d, t)[1..] == [];
    } else {
      if t.Content? {
        EscapesHaveNoBlank(d, t.c);
      }
      NoneOccurs(' ', SpellOne(d, t));
    }
  }

  lemma {:induction false} SpelledBlanks(d: Dialect, ts: seq<Token>)
    requires !d.spaced && Mark(' ') !in ts
    ensures Occurs(' ', Spell(d, ts)) == BlanksInContent(ts)
  {
    if ts != [] {
      assert ts[0] in ts && forall t :: t in ts[1..] ==> t in ts;
      OneBlank(d, ts[0]);
      SpelledBlanks(d, ts[1..]);
      OccursConcat(' ', SpellOne(d, ts[0]), Spell(d, ts[1..]));
    }
  }

  /** A compact text has no blank outside the contents of its strings. */
  lemma CompactHasNoBlanks(d: Dialect, v: Json)
    requires !d.spaced
    ensures Occurs(' ', Print(d, v)) == BlanksInContent(Tokens(v))
  {
    PrintSpellsTokens(d, v);
    TokensFrame(v);
    FramedMarksAreNotBlank(false, Tokens(v), false);
    SpelledBlanks(d, Tokens(v));
  }

  // ----- escapes (section 7 of RFC 8259) -----

  const HEX := "0123456789abcdef"

  function HexEscape(n: int): string
    requires 0 <= n < 0x10000
  {
    "\\u" + [HEX[n / 4096], HEX[n / 256 % 16], HEX[n / 16 % 16], HEX[n % 16]]
  }

  lemma HexDigits(n: int)
    requires 0 <= n < 16
    ensures HexChar(n) == HEX[n]
  {
  }

  lemma UnitIsHexEscape(n: int)
    requires 0 <= n < 0x10000
    ensures Unit(n) == HexEscape(n)
  {
    HexDigits(n / 4096);
    HexDigits(n / 256 % 16);
    HexDigits(n / 16 % 16);
    HexDigits(n % 16);
  }

  predicate IsControl(c: char) { (c as int) < 0x20 }

  /** Escaped by Go's encoder for the sake of HTML and JavaScript. */
  predicate IsHtml(c: char) { c == '<' || c == '>' || c == '&' || c as int == 0x2028 || c as int == 0x2029 }

  /** Every escape, written out: seven two-character forms, other controls and what the dialect
      excludes in hexadecimal, all else as itself. */
  lemma EscapesAre(d: Dialect, c: char)
    ensures c == '"' ==> Escape(d, c) == "\\\""
    ensures c == '\\' ==> Escape(d, c) == "\\\\"
    ensures c as int == 8 ==> Escape(d, c) == "\\b"
    ensures c as int == 9 ==> Escape(d, c) == "\\t"
    ensures c as int == 10 ==> Escape(d, c) == "\\n"
    ensures c as int == 12 ==> Escape(d, c) == "\\f"
    ensures c as int == 13 ==> Escape(d, c) == "\\r"
    ensures IsControl(c) && c as int !in {8, 9, 10, 12, 13} ==> Escape(d, c) == HexEscape(c as int)
    ensures !IsControl(c) && c != '"' && c != '\\' && (d.html ==> !IsHtml(c)) && (d.asciiOnly ==> c <= '~') ==> Escape(d, c) == [c]
    ensures d.html && IsHtml(c) ==> Escape(d, c) == HexEscape(c as int)
    ensures d.asciiOnly && '~' < c && c as int < 0x10000 ==> Escape(d, c) == HexEscape(c as int)
    ensures d.asciiOnly && c as int >= 0x10000 ==>
      Escape(d, c) == HexEscape(0xD800 + (c as int - 0x10000) / 0x400) + HexEscape(0xDC00 + (c as int - 0x10000) % 0x400)
  {
    if c as int < 0x10000 {
      UnitIsHexEscape(c as int);
    } else {
      UnitIsHexEscape(0xD800 + (c as int - 0x10000) / 0x400);
      UnitIsHexEscape(0xDC00 + (c as int - 0x10000) % 0x400);
    }
  }

  // ----- numbers -----

  /** The number a decimal text stands for. */
  function ValueOf(s: string): int
    requires forall i :: 0 <= i < |s| ==> '0' <= s[i] <= '9'
  {
    if s == [] then 0 else ValueOf(s[..|s| - 1]) * 10 + (s[|s| - 1] as int - '0' as int)
  }

  /** Integers are written in decimal digits without leading zeros, after a minus sign if negative. */
  lemma {:induction false} DigitsAreDecimal(n: nat)
    ensures Digits(n) != [] && (forall i :: 0 <= i < |Digits(n)| ==> '0' <= Digits(n)[i] <= '9')
    ensures ValueOf(Digits(n)) == n && (Digits(n)[0] == '0' ==> n == 0 && |Digits(n)| == 1)
  {
    var last := [DigitChar(n % 10)];
    if n < 10 {
      assert Digits(n)[..0] == [];
    } else {
      DigitsAreDecimal(n / 10);
      assert Digits(n)[..|Digits(n)| - 1] == Digits(n / 10);
    }
  }

  lemma IntegersAreDecimal(n: int)
    ensures n >= 0 ==> PrintInt(n) == Digits(n)
    ensures n < 0 ==> PrintInt(n) == "-" + Digits(-n) && Digits(-n)[0] != '0'
  {
    if n < 0 {
      DigitsAreDecimal(-n);
    }
  }

  // ----- key order -----

  /** In the normal form of an object the keys ascend by code point. */
  lemma KeysAscend(ms: seq<Member>)
    requires WellFormed(Obj(ms))
    ensures var ns := Normalise(Obj(ms)).members;
      forall i, j :: 0 <= i < j < |ns| ==> LexOrder.Less(ns[i].key, ns[j].key)
  {
    SortSorts(NormaliseMembers(ms));
  }

  // ----- known texts -----

  lemma KnownWords(d: Dialect)
    ensures Print(d, Null) == "null" && Print(d, Bool(true)) == "true" && Print(d, Bool(false)) == "false"
    ensures Print(d, Arr([])) == "[]" && Print(d, Obj([])) == "{}" && Print(d, Str("")) == "\"\""
  {
  }

  lemma KnownArray(d: Dialect)
    ensures Print(d, Arr([Null, Num(7)])) == if d.spaced then "[null, 7]" else "[null,7]"
  {
    var items := [Null, Num(7)];
    assert items[1..] == [Num(7)] && items[1..][1..] == [];
    assert PrintItems(d, [Num(7)]) == "7";
    assert PrintItems(d, items) == if d.spaced then "null, 7" else "null,7";
  }

  lemma QuoteLetter(d: Dialect, c: char)
    requires 'a' <= c <= 'z'
    ensures Quote(d, [c]) == ['"', c, '"']
  {
    assert [c][1..] == [];
    assert EscapeAll(d, [c]) == [c];
  }

  lemma KnownMember(d: Dialect, c: char, n: int)
    requires 'a' <= c <= 'z' && 0 <= n < 10
    ensures PrintMember(d, Member([c], Num(n))) ==
      if d.spaced then ['"', c, '"', ':', ' ', '0' + n as char] else ['"', c, '"', ':', '0' + n as char]
  {
    QuoteLetter(d, c);
    assert PrintInt(n) == ['0' + n as char];
  }

  lemma TwoMembers(d: Dialect, a: Member, b: Member)
    ensures Print(d, Obj([a, b])) == "{" + (PrintMember(d, a) + (if d.spaced then ", " else ",") + PrintMember(d, b)) + "}"
  {
    assert [a, b][1..] == [b] && [b][1..] == [];
    assert PrintMembers(d, [b]) == PrintMember(d, b);
    assert PrintMembers(d, [a, b]) == PrintMember(d, a) + (if d.spaced then ", " else ",") + PrintMember(d, b);
  }

  lemma CompactPair(x: string, y: string)
    requires x == "\"a\":2" && y == "\"b\":1"
    ensures "{" + (x + "," + y) + "}" == "{\"a\":2,\"b\":1}"
  {
  }

  lemma SpacedPair(x: string, y: string)
    requires x == "\"a\": 2" && y == "\"b\": 1"
    ensures "{" + (x + ", " + y) + "}" == "{\"a\": 2, \"b\": 1}"
  {
  }

  lemma KnownMembers(d: Dialect, a: Member, b: Member)
    requires a == Member("a", Num(2)) && b == Member("b", Num(1))
    ensures Print(d, Obj([a, b])) == if d.spaced then "{\"a\": 2, \"b\": 1}" else "{\"a\":2,\"b\":1}"
  {
    KnownMember(d, 'a', 2);
    KnownMember(d, 'b', 1);
    TwoMembers(d, a, b);
    if d.spaced {
      SpacedPair(PrintMember(d, a), PrintMember(d, b));
    } else {
      CompactPair(PrintMember(d, a), PrintMember(d, b));
    }
  }

  /** One object in either spacing, its keys given in descending order. */
  lemma KnownObject(d: Dialect)
    ensures Canonical(d, Obj([Member("b", Num(1)), Member("a", Num(2))])) ==
      if d.spaced then "{\"a\": 2, \"b\": 1}" else "{\"a\":2,\"b\":1}"
  {
    var a, b := Member("a", Num(2)), Member("b", Num(1));
    var none: seq<Member> := [];
    assert [b, a][1..] == [a] && [a][1..] == [];
    assert NormaliseMembers([b, a]) == [b, a];
    assert LexOrder.Less("a", "b");
    assert InsertMember(b, none) == [b];
    assert InsertMember(b, [a]) == [a] + InsertMember(b, none);
    assert SortMembers([a]) == [a];
    assert SortMembers([b, a]) == InsertMember(b, SortMembers([a]));
    KnownMembers(d, a, b);
  }
}
