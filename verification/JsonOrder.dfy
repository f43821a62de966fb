/** The order of JSON texts that breaks ties: Python compares ASCII-escaped texts by code point,
    TypeScript raw ones by UTF-16 code unit.  Both are renderings of one token list, and the two
    orders are compared token by token. */
module JsonOrder {
  import opened JsonText
  import LexOrder

  // ----- UTF-16 -----

  /** A code unit as a character; units from 0xD800 on move up by 0x800, past the surrogates,
      which are no characters.  This keeps their order. */
  function UnitChar(n: int): char
    requires 0 <= n < 0x10000
  {
    if n < 0xD800 then n as char else (n + 0x800) as char
  }

  function HighUnit(c: char): int
    requires c as int >= 0x10000
  {
    0xD800 + (c as int - 0x10000) / 1024
  }

  function LowUnit(c: char): int
    requires c as int >= 0x10000
  {
    0xDC00 + (c as int - 0x10000) % 1024
  }

  function CharUnits(c: char): string
  {
    if c as int < 0x10000 then [UnitChar(c as int)] else [UnitChar(HighUnit(c)), UnitChar(LowUnit(c))]
  }

  /** The code units of a text, as JavaScript's `<` and `>` on strings see it. */
  function Utf16(s: string): string
  {
    if s == [] then [] else CharUnits(s[0]) + Utf16(s[1..])
  }

  lemma {:induction false} Utf16Concat(s: string, t: string)
    ensures Utf16(s + t) == Utf16(s) + Utf16(t)
    decreases |s|
  {
    if s == [] {
      assert s + t == t;
    } else {
      assert (s + t)[1..] == s[1..] + t;
      Utf16Concat(s[1..], t);
      Joined(CharUnits(s[0]), Utf16(s[1..]), Utf16(t));
    }
  }

  lemma {:induction false} Utf16Injective(s: string, t: string)
    requires Utf16(s) == Utf16(t)
    ensures s == t
    decreases |s|
  {
    if s != [] && t != [] {
      var a, b := CharUnits(s[0]), CharUnits(t[0]);
      assert Utf16(s)[0] == a[0] && Utf16(t)[0] == b[0];
      assert |a| == 2 ==> Utf16(s)[1] == a[1];
      assert |b| == 2 ==> Utf16(t)[1] == b[1];
      assert Utf16(s)[|a|..] == Utf16(s[1..]) && Utf16(t)[|b|..] == Utf16(t[1..]);
      Utf16Injective(s[1..], t[1..]);
      assert s == [s[0]] + s[1..] && t == [t[0]] + t[1..];
    }
  }

  /** What `fast-json-stable-stringify` returns for a normal form, as TypeScript compares it. */
  function TypeScriptText(v: Json): string
  {
    Utf16(Print(SERDE, v))
  }

  function PythonText(v: Json): string
  {
    Print(PYTHON_DUMPS, v)
  }

  // ----- first differences -----

  /** At the first difference of the texts, one character is among `]` to `~` and the other above. */
  predicate Clash(s: string, t: string)
  {
    s != [] && t != [] && if s[0] == t[0] then Clash(s[1..], t[1..]) else Parted(s[0], t[0])
  }

  predicate Parted(x: char, y: char)
  {
    (']' <= x <= '~' && y > '~') || (']' <= y <= '~' && x > '~')
  }

  /** a and b part at n. */
  ghost predicate PartAt(a: string, b: string, n: nat)
  {
    n < |a| && n < |b| && a[..n] == b[..n] && a[n] != b[n]
  }

  lemma {:induction false} FirstDifference(s: string, t: string, n: nat)
    requires PartAt(s, t, n)
    ensures LexOrder.Less(s, t) <==> s[n] < t[n]
    ensures Clash(s, t) <==> Parted(s[n], t[n])
  {
    if n > 0 {
      assert s[0] == s[..n][0] == t[..n][0] == t[0];
      assert s[1..][..n - 1] == s[..n][1..] == t[..n][1..] == t[1..][..n - 1];
      FirstDifference(s[1..], t[1..], n - 1);
    }
  }

  lemma {:induction false} CommonPrefix(p: string, s: string, t: string)
    ensures LexOrder.Less(p + s, p + t) <==> LexOrder.Less(s, t)
    ensures Clash(p + s, p + t) <==> Clash(s, t)
  {
    if p == [] {
      assert p + s == s && p + t == t;
    } else {
      assert (p + s)[1..] == p[1..] + s && (p + t)[1..] == p[1..] + t;
      CommonPrefix(p[1..], s, t);
    }
  }

  // ----- tokens -----

  /** A character of the JSON grammar, or one of a string's content. */
  datatype Token = Mark(c: char) | Content(c: char)

  function Marks(s: string): seq<Token>
  {
    seq(|s|, i requires 0 <= i < |s| => Mark(s[i]))
  }

  function Contents(s: string): seq<Token>
  {
    seq(|s|, i requires 0 <= i < |s| => Content(s[i]))
  }

  function QuoteTokens(s: string): seq<Token>
  {
    [Mark('"')] + Contents(s) + [Mark('"')]
  }

  function Tokens(v: Json): seq<Token>
    decreases v
  {
    match v
    case Null => Marks("null")
    case Bool(b) => Marks(if b then "true" else "false")
    case Num(n) => Marks(PrintInt(n))
    case Str(s) => QuoteTokens(s)
    case Arr(items) => [Mark('[')] + ItemTokens(items) + [Mark(']')]
    case Obj(ms) => [Mark('{')] + MembersTokens(ms) + [Mark('}')]
  }

  function Comma(more: bool): seq<Token>
  {
    if more then [Mark(',')] else []
  }

  function ItemTokens(items: seq<Json>): seq<Token>
    decreases items
  {
    if items == [] then [] else Tokens(items[0]) + Comma(|items| > 1) + ItemTokens(items[1..])
  }

  function MemberTokens(m: Member): seq<Token>
    decreases m
  {
    QuoteTokens(m.key) + [Mark(':')] + Tokens(m.value)
  }

  function MembersTokens(ms: seq<Member>): seq<Token>
    decreases ms
  {
    if ms == [] then [] else MemberTokens(ms[0]) + Comma(|ms| > 1) + MembersTokens(ms[1..])
  }

  function ShowOne(d: Dialect, t: Token): string
  {
    match t
    case Mark(c) => if c == ',' then ItemSep(d) else if c == ':' then KeySep(d) else [c]
    case Content(c) => Escape(d, c)
  }

  function Show(d: Dialect, ts: seq<Token>): string
  {
    if ts == [] then [] else ShowOne(d, ts[0]) + Show(d, ts[1..])
  }

  lemma {:induction false} ShowConcat(d: Dialect, a: seq<Token>, b: seq<Token>)
    ensures Show(d, a + b) == Show(d, a) + Show(d, b)
    decreases |a|
  {
    if a == [] {
      assert a + b == b;
    } else {
      assert (a + b)[1..] == a[1..] + b;
      ShowConcat(d, a[1..], b);
      Joined(ShowOne(d, a[0]), Show(d, a[1..]), Show(d, b));
    }
  }

  lemma ShowOneMark(d: Dialect, t: Token)
    ensures Show(d, [t]) == ShowOne(d, t)
  {
    assert [t][1..] == [];
    assert Show(d, [t]) == ShowOne(d, t) + [];
  }

  lemma ShowThree(d: Dialect, a: seq<Token>, b: seq<Token>, c: seq<Token>)
    ensures Show(d, a + b + c) == Show(d, a) + Show(d, b) + Show(d, c)
  {
    ShowConcat(d, a + b, c);
    ShowConcat(d, a, b);
  }

  lemma {:induction false} ShowMarks(d: Dialect, s: string)
    requires ',' !in s && ':' !in s
    ensures Show(d, Marks(s)) == s
  {
    if s != [] {
      assert Marks(s)[1..] == Marks(s[1..]);
      ShowMarks(d, s[1..]);
      assert s == [s[0]] + s[1..];
    }
  }

  lemma {:induction false} ShowContents(d: Dialect, s: string)
    ensures Show(d, Contents(s)) == EscapeAll(d, s)
  {
    if s != [] {
      assert Contents(s)[1..] == Contents(s[1..]);
      ShowContents(d, s[1..]);
    }
  }

  lemma ShowQuote(d: Dialect, s: string)
    ensures Show(d, QuoteTokens(s)) == Quote(d, s)
  {
    ShowThree(d, [Mark('"')], Contents(s), [Mark('"')]);
    ShowOneMark(d, Mark('"'));
    ShowContents(d, s);
  }

  lemma {:induction false} DigitsAreDigits(n: nat)
    ensures forall c :: c in Digits(n) ==> '0' <= c <= '9'
  {
    if n >= 10 {
      DigitsAreDigits(n / 10);
    }
  }

  lemma IntChars(n: int)
    ensures forall c :: c in PrintInt(n) ==> c == '-' || '0' <= c <= '9'
  {
    if n < 0 {
      DigitsAreDigits(-n);
    } else {
      DigitsAreDigits(n);
    }
  }

  /** A printed tree is its token list, rendered. */
  lemma {:induction false} PrintShowsTokens(d: Dialect, v: Json)
    ensures Print(d, v) == Show(d, Tokens(v))
    decreases v
  {
    match v
    case Null => ShowMarks(d, "null");
    case Bool(b) => ShowMarks(d, if b then "true" else "false");
    case Num(n) =>
      IntChars(n);
      ShowMarks(d, PrintInt(n));
    case Str(s) => ShowQuote(d, s);
    case Arr(items) =>
      ShowThree(d, [Mark('[')], ItemTokens(items), [Mark(']')]);
      ShowOneMark(d, Mark('['));
      ShowOneMark(d, Mark(']'));
      ItemsShowTokens(d, items);
    case Obj(ms) =>
      ShowThree(d, [Mark('{')], MembersTokens(ms), [Mark('}')]);
      ShowOneMark(d, Mark('{'));
      ShowOneMark(d, Mark('}'));
      MembersShowTokens(d, ms);
  }

  lemma {:induction false} ItemsShowTokens(d: Dialect, items: seq<Json>)
    ensures PrintItems(d, items) == Show(d, ItemTokens(items))
    decreases items
  {
    if items != [] {
      ShowThree(d, Tokens(items[0]), Comma(|items| > 1), ItemTokens(items[1..]));
      ShowOneMark(d, Mark(','));
      PrintShowsTokens(d, items[0]);
      ItemsShowTokens(d, items[1..]);
    }
  }

  lemma {:induction false} MemberShowsTokens(d: Dialect, m: Member)
    ensures PrintMember(d, m) == Show(d, MemberTokens(m))
    decreases m
  {
    ShowThree(d, QuoteTokens(m.key), [Mark(':')], Tokens(m.value));
    ShowQuote(d, m.key);
    ShowOneMark(d, Mark(':'));
    PrintShowsTokens(d, m.value);
  }

  lemma {:induction false} MembersShowTokens(d: Dialect, ms: seq<Member>)
    ensures PrintMembers(d, ms) == Show(d, MembersTokens(ms))
    decreases ms
  {
    if ms != [] {
      ShowThree(d, MemberTokens(ms[0]), Comma(|ms| > 1), MembersTokens(ms[1..]));
      ShowOneMark(d, Mark(','));
      MemberShowsTokens(d, ms[0]);
      MembersShowTokens(d, ms[1..]);
    }
  }

  // ----- where strings begin and end -----

  /** Inside a string come its content and the closing quote, outside only the grammar's characters. */
  predicate Fits(inside: bool, t: Token)
  {
    if inside then t.Content? || t == Mark('"') else t.Mark? && ' ' < t.c <= '~'
  }

  function After(inside: bool, t: Token): bool
  {
    if t == Mark('"') then !inside else inside
  }

  predicate Frames(inside: bool, ts: seq<Token>, after: bool)
    decreases |ts|
  {
    if ts == [] then after == inside else Fits(inside, ts[0]) && Frames(After(inside, ts[0]), ts[1..], after)
  }

  lemma {:induction false} FramesConcat(inside: bool, a: seq<Token>, between: bool, b: seq<Token>, after: bool)
    requires Frames(inside, a, between) && Frames(between, b, after)
    ensures Frames(inside, a + b, after)
    decreases |a|
  {
    if a == [] {
      assert a + b == b;
    } else {
      assert (a + b)[1..] == a[1..] + b;
      FramesConcat(After(inside, a[0]), a[1..], between, b, after);
    }
  }

  lemma FramesThree(a: seq<Token>, b: seq<Token>, c: seq<Token>)
    requires Frames(false, a, false) && Frames(false, b, false) && Frames(false, c, false)
    ensures Frames(false, a + b + c, false)
  {
    FramesConcat(false, a, false, b, false);
    FramesConcat(false, a + b, false, c, false);
  }

  lemma {:induction false} MarksFrame(s: string)
    requires forall c :: c in s ==> c != '"' && ' ' < c <= '~'
    ensures Frames(false, Marks(s), false)
  {
    if s != [] {
      assert s[0] in s && forall c :: c in s[1..] ==> c in s;
      assert Marks(s)[1..] == Marks(s[1..]);
      MarksFrame(s[1..]);
    }
  }

  lemma {:induction false} ContentsFrame(s: string)
    ensures Frames(true, Contents(s), true)
  {
    if s != [] {
      assert Contents(s)[1..] == Contents(s[1..]);
      ContentsFrame(s[1..]);
    }
  }

  lemma OneFrames(t: Token)
    requires t.Mark? && ' ' < t.c <= '~' && t.c != '"'
    ensures Frames(false, [t], false)
  {
    assert [t][1..] == [];
  }

  lemma QuoteFrames(s: string)
    ensures Frames(false, QuoteTokens(s), false)
  {
    var quote := [Mark('"')];
    assert quote[1..] == [];
    assert Frames(false, quote, true) && Frames(true, quote, false);
    ContentsFrame(s);
    FramesConcat(false, quote, true, Contents(s), true);
    FramesConcat(false, quote + Contents(s), true, quote, false);
  }

  lemma {:induction false} TokensFrame(v: Json)
    ensures Frames(false, Tokens(v), false)
    decreases v
  {
    match v
    case Null => MarksFrame("null");
    case Bool(b) => MarksFrame(if b then "true" else "false");
    case Num(n) =>
      IntChars(n);
      MarksFrame(PrintInt(n));
    case Str(s) => QuoteFrames(s);
    case Arr(items) =>
      OneFrames(Mark('['));
      OneFrames(Mark(']'));
      ItemTokensFrame(items);
      FramesThree([Mark('[')], ItemTokens(items), [Mark(']')]);
    case Obj(ms) =>
      OneFrames(Mark('{'));
      OneFrames(Mark('}'));
      MembersTokensFrame(ms);
      FramesThree([Mark('{')], MembersTokens(ms), [Mark('}')]);
  }

  lemma {:induction false} ItemTokensFrame(items: seq<Json>)
    ensures Frames(false, ItemTokens(items), false)
    decreases items
  {
    if items != [] {
      OneFrames(Mark(','));
      TokensFrame(items[0]);
      ItemTokensFrame(items[1..]);
      FramesThree(Tokens(items[0]), Comma(|items| > 1), ItemTokens(items[1..]));
    }
  }

  lemma {:induction false} MembersTokensFrame(ms: seq<Member>)
    ensures Frames(false, MembersTokens(ms), false)
    decreases ms
  {
    if ms != [] {
      var m := ms[0];
      OneFrames(Mark(','));
      OneFrames(Mark(':'));
      QuoteFrames(m.key);
      TokensFrame(m.value);
      FramesThree(QuoteTokens(m.key), [Mark(':')], Tokens(m.value));
      MembersTokensFrame(ms[1..]);
      FramesThree(MemberTokens(m), Comma(|ms| > 1), MembersTokens(ms[1..]));
    }
  }

  // ----- two different tokens at one place -----

  function PythonOne(t: Token): string { ShowOne(PYTHON_DUMPS, t) }

  function TypeScriptOne(t: Token): string { Utf16(ShowOne(SERDE, t)) }

  /** Not escaped by Python for being outside ASCII. */
  predicate IsPlain(t: Token)
  {
    t.c <= '~'
  }

  lemma {:induction false} PlainUtf16(s: string)
    requires forall c :: c in s ==> c <= '~'
    ensures Utf16(s) == s
  {
    if s != [] {
      assert s[0] in s && forall c :: c in s[1..] ==> c in s;
      PlainUtf16(s[1..]);
      assert s == [s[0]] + s[1..];
    }
  }

  /** Inside a string both renderings of a plain token are the same ASCII text. */
  lemma PlainShownAlike(t: Token)
    requires Fits(true, t) && IsPlain(t)
    ensures PythonOne(t) == TypeScriptOne(t) && PythonOne(t) != []
    ensures forall c :: c in PythonOne(t) ==> c <= '~'
  {
    PlainUtf16(ShowOne(SERDE, t));
  }

  lemma HexCharOrder(n: int, m: int)
    requires 0 <= n < 16 && 0 <= m < 16
    ensures HexChar(n) < HexChar(m) <==> n < m
    ensures HexChar(n) == HexChar(m) <==> n == m
    ensures HexChar(n) <= '~'
  {
  }

  predicate IsNibble(n: int) { 0 <= n < 16 }

  /** Numbers are ordered by their first differing hexadecimal digit. */
  lemma FirstNibbleDecides(a: int, b: int, c: int, d: int, a': int, b': int, c': int, d': int)
    requires IsNibble(a) && IsNibble(b) && IsNibble(c) && IsNibble(d)
    requires IsNibble(a') && IsNibble(b') && IsNibble(c') && IsNibble(d')
    ensures a * 4096 + b * 256 + c * 16 + d < a' * 4096 + b' * 256 + c' * 16 + d' <==>
      if a != a' then a < a' else if b != b' then b < b' else if c != c' then c < c' else d < d'
  {
  }

  /** Hexadecimal escapes are ordered as their numbers. */
  lemma UnitsPart(n: int, m: int) returns (k: nat)
    requires 0 <= n < 0x10000 && 0 <= m < 0x10000 && n != m
    ensures 2 <= k < 6 && Unit(n)[..k] == Unit(m)[..k] && Unit(n)[k] != Unit(m)[k]
    ensures Unit(n)[k] < Unit(m)[k] <==> n < m
  {
    Nibbles(n);
    Nibbles(m);
    var a, b, c, d := n / 4096, n / 256 % 16, n / 16 % 16, n % 16;
    var a', b', c', d' := m / 4096, m / 256 % 16, m / 16 % 16, m % 16;
    FirstNibbleDecides(a, b, c, d, a', b', c', d');
    HexCharOrder(a, a');
    HexCharOrder(b, b');
    HexCharOrder(c, c');
    HexCharOrder(d, d');
    k := if a != a' then 2 else if b != b' then 3 else if c != c' then 4 else 5;
  }

  /** A plain token inside a string shows as itself, a two-character escape or a control escape. */
  lemma PlainShape(t: Token)
    requires Fits(true, t) && IsPlain(t)
    ensures var a := PythonOne(t);
      || (a == [t.c] && t.c != '\\' && (t.c == '"' ==> t.Mark?))
      || (t.Content? && ShortForm(t.c).Some? && a == ['\\', ShortForm(t.c).value])
      || (t.Content? && t.c as int < 0x20 && a == Unit(t.c as int))
  {
  }

  lemma ShortForms(c: char, d: char)
    requires ShortForm(c).Some?
    ensures ShortForm(c).value < 'u'
    ensures ShortForm(d) == ShortForm(c) ==> c == d
  {
  }

  /** Two different ones part within the shorter of their texts. */
  lemma PlainTokensPart(x: Token, y: Token) returns (n: nat)
    requires Fits(true, x) && Fits(true, y) && IsPlain(x) && IsPlain(y) && x != y
    ensures PartAt(PythonOne(x), PythonOne(y), n)
  {
    PlainShape(x);
    PlainShape(y);
    var a, b := PythonOne(x), PythonOne(y);
    if a[0] != b[0] {
      n := 0;
    } else {
      if ShortForm(x.c).Some? {
        ShortForms(x.c, y.c);
      }
      if ShortForm(y.c).Some? {
        ShortForms(y.c, x.c);
      }
      n := 1;
      if a[1] == b[1] {
        n := UnitsPart(x.c as int, y.c as int);
      }
    }
  }

  /** Differences inside the first two texts decide the order of what begins with them. */
  lemma PartedTexts(a: string, b: string, n: nat, s: string, t: string)
    requires PartAt(a, b, n)
    ensures LexOrder.Less(a + s, b + t) <==> a[n] < b[n]
    ensures Clash(a + s, b + t) <==> Parted(a[n], b[n])
  {
    assert (a + s)[..n] == a[..n] && (b + t)[..n] == b[..n];
    assert (a + s)[n] == a[n] && (b + t)[n] == b[n];
    FirstDifference(a + s, b + t, n);
  }

  // ----- one or both outside ASCII -----

  /** The code units of a character, as numbers. */
  function Numbers(c: char): seq<int>
  {
    if c as int < 0x10000 then [c as int] else [HighUnit(c), LowUnit(c)]
  }

  lemma UnitCharOrder(n: int, m: int)
    requires 0 <= n < 0x10000 && 0 <= m < 0x10000
    ensures UnitChar(n) < UnitChar(m) <==> n < m
    ensures UnitChar(n) == UnitChar(m) <==> n == m
    ensures n > 0x7e ==> UnitChar(n) > '~'
  {
  }

  /** Two characters differ within the units both have. */
  lemma NumbersPart(c: char, d: char) returns (i: nat)
    requires c != d
    ensures var us, vs := Numbers(c), Numbers(d);
      i < |us| && i < |vs| && i <= 1 && us[i] != vs[i] && (i == 1 ==> us[0] == vs[0])
  {
    i := if Numbers(c)[0] != Numbers(d)[0] then 0 else 1;
  }

  /** The orders of the two renderings of what starts with x and with y agree unless they clash. */
  ghost predicate Agree(x: Token, y: Token, s: string, t: string, s': string, t': string)
  {
    (LexOrder.Less(PythonOne(x) + s, PythonOne(y) + t) <==> LexOrder.Less(TypeScriptOne(x) + s', TypeScriptOne(y) + t'))
    <==> !Clash(TypeScriptOne(x) + s', TypeScriptOne(y) + t')
  }

  predicate WideUnits(us: seq<int>)
  {
    1 <= |us| <= 2 && forall i :: 0 <= i < |us| ==> 0x7e < us[i] < 0x10000
  }

  function Hex(us: seq<int>): string
    requires WideUnits(us)
  {
    if |us| == 1 then Unit(us[0]) else Unit(us[0]) + Unit(us[1])
  }

  function Raw(us: seq<int>): string
    requires WideUnits(us)
  {
    if |us| == 1 then [UnitChar(us[0])] else [UnitChar(us[0]), UnitChar(us[1])]
  }

  /** A character outside ASCII: Python shows its units in hexadecimal, TypeScript as they are. */
  lemma WideShape(t: Token)
    requires t.Content? && !IsPlain(t)
    ensures WideUnits(Numbers(t.c))
    ensures PythonOne(t) == Hex(Numbers(t.c)) && TypeScriptOne(t) == Raw(Numbers(t.c))
  {
    assert Utf16([t.c]) == CharUnits(t.c) + Utf16([]) by {
      assert [t.c][1..] == [];
    }
  }

  lemma FirstUnitsPart(us: seq<int>, vs: seq<int>) returns (n: nat)
    requires WideUnits(us)
    requires WideUnits(vs)
    requires us[0] != vs[0]
    ensures PartAt(Hex(us), Hex(vs), n) && PartAt(Raw(us), Raw(vs), 0)
    ensures Hex(us)[n] < Hex(vs)[n] <==> Raw(us)[0] < Raw(vs)[0]
  {
    n := UnitsPart(us[0], vs[0]);
    assert Hex(us)[..n] == Unit(us[0])[..n] && Hex(vs)[..n] == Unit(vs[0])[..n];
    UnitCharOrder(us[0], vs[0]);
  }

  lemma SecondUnitsPart(us: seq<int>, vs: seq<int>) returns (n: nat)
    requires |us| == |vs| == 2 && us[0] == vs[0] && us[1] != vs[1]
    requires WideUnits(us) && WideUnits(vs)
    ensures PartAt(Hex(us), Hex(vs), n) && PartAt(Raw(us), Raw(vs), 1)
    ensures Hex(us)[n] < Hex(vs)[n] <==> Raw(us)[1] < Raw(vs)[1]
  {
    var k := UnitsPart(us[1], vs[1]);
    n := 6 + k;
    assert Hex(us)[..n] == Unit(us[0]) + Unit(us[1])[..k] && Hex(vs)[..n] == Unit(vs[0]) + Unit(vs[1])[..k];
    UnitCharOrder(us[1], vs[1]);
  }

  lemma WideCharsAreHigh(us: seq<int>, i: nat)
    requires WideUnits(us) && i < |us|
    ensures Raw(us)[i] > '~'
  {
    UnitCharOrder(us[i], us[i]);
  }

  lemma WideAgainstWide(x: Token, y: Token, s: string, t: string, s': string, t': string)
    requires x.Content? && y.Content? && !IsPlain(x) && !IsPlain(y) && x != y
    ensures Agree(x, y, s, t, s', t')
  {
    WideShape(x);
    WideShape(y);
    var us, vs := Numbers(x.c), Numbers(y.c);
    var i := NumbersPart(x.c, y.c);
    var n;
    if i == 0 {
      n := FirstUnitsPart(us, vs);
    } else {
      n := SecondUnitsPart(us, vs);
    }
    WideCharsAreHigh(us, i);
    WideCharsAreHigh(vs, i);
    PartedTexts(Hex(us), Hex(vs), n, s, t);
    PartedTexts(Raw(us), Raw(vs), i, s', t');
  }

  lemma PlainAgainstPlain(x: Token, y: Token, s: string, t: string, s': string, t': string)
    requires Fits(true, x) && Fits(true, y) && IsPlain(x) && IsPlain(y) && x != y
    ensures Agree(x, y, s, t, s', t')
  {
    PlainShownAlike(x);
    PlainShownAlike(y);
    var n := PlainTokensPart(x, y);
    PartedTexts(PythonOne(x), PythonOne(y), n, s, t);
    PartedTexts(PythonOne(x), PythonOne(y), n, s', t');
    assert PythonOne(x)[n] in PythonOne(x) && PythonOne(y)[n] in PythonOne(y);
  }

  /** A plain token against a wide one: Python sees a backslash in place of the wide character. */
  lemma PlainAgainstWide(x: Token, y: Token, s: string, t: string, s': string, t': string)
    requires Fits(true, x) && IsPlain(x) && y.Content? && !IsPlain(y)
    ensures Agree(x, y, s, t, s', t') && Agree(y, x, t, s, t', s')
  {
    PlainShownAlike(x);
    WideShape(y);
    var a, u := PythonOne(x), Numbers(y.c)[0];
    UnitCharOrder(u, u);
    assert a[0] in a;
    PartedTexts(TypeScriptOne(x), TypeScriptOne(y), 0, s', t');
    PartedTexts(TypeScriptOne(y), TypeScriptOne(x), 0, t', s');
    var n := PlainPartsFromUnit(x, u);
    assert PythonOne(y)[..n] == Unit(u)[..n] && PythonOne(y)[n] == Unit(u)[n];
    PartedTexts(PythonOne(x), PythonOne(y), n, s, t);
    PartedTexts(PythonOne(y), PythonOne(x), n, t, s);
  }

  /** A plain token's text comes before a wide escape unless it begins above the backslash. */
  lemma PlainPartsFromUnit(x: Token, u: int) returns (n: nat)
    requires Fits(true, x) && IsPlain(x) && 0x7e < u < 0x10000
    ensures var a := PythonOne(x);
      n < |a| && n < 6 && a[..n] == Unit(u)[..n] && a[n] != Unit(u)[n] && (a[n] < Unit(u)[n] <==> a[0] <= '\\')
  {
    PlainShape(x);
    var a := PythonOne(x);
    if a[0] != '\\' {
      n := 0;
    } else if ShortForm(x.c).Some? {
      ShortForms(x.c, x.c);
      n := 1;
    } else {
      n := UnitsPart(x.c as int, u);
    }
  }

  lemma MarksAgree(x: Token, y: Token, s: string, t: string, s': string, t': string)
    requires Fits(false, x) && Fits(false, y) && x != y
    ensures Agree(x, y, s, t, s', t')
  {
    PlainUtf16(ShowOne(SERDE, x));
    PlainUtf16(ShowOne(SERDE, y));
    PartedTexts(PythonOne(x), PythonOne(y), 0, s, t);
    PartedTexts(TypeScriptOne(x), TypeScriptOne(y), 0, s', t');
  }

  lemma DifferentTokensAgree(inside: bool, x: Token, y: Token, s: string, t: string, s': string, t': string)
    requires Fits(inside, x) && Fits(inside, y) && x != y
    ensures Agree(x, y, s, t, s', t')
  {
    if !inside {
      MarksAgree(x, y, s, t, s', t');
    } else if IsPlain(x) && IsPlain(y) {
      PlainAgainstPlain(x, y, s, t, s', t');
    } else if IsPlain(x) {
      PlainAgainstWide(x, y, s, t, s', t');
    } else if IsPlain(y) {
      PlainAgainstWide(y, x, t, s, t', s');
    } else {
      WideAgainstWide(x, y, s, t, s', t');
    }
  }

  // ----- whole texts -----

  lemma {:induction false} TokenTextsAgree(inside: bool, xs: seq<Token>, after: bool, ys: seq<Token>, after': bool)
    requires Frames(inside, xs, after) && Frames(inside, ys, after')
    ensures (LexOrder.Less(Show(PYTHON_DUMPS, xs), Show(PYTHON_DUMPS, ys)) <==>
             LexOrder.Less(Utf16(Show(SERDE, xs)), Utf16(Show(SERDE, ys))))
       <==> !Clash(Utf16(Show(SERDE, xs)), Utf16(Show(SERDE, ys)))
    decreases |xs|
  {
    if xs == [] || ys == [] {
      ShowsSomething(xs);
      ShowsSomething(ys);
    } else {
      var x, y, s, t := xs[0], ys[0], xs[1..], ys[1..];
      Utf16Concat(ShowOne(SERDE, x), Show(SERDE, s));
      Utf16Concat(ShowOne(SERDE, y), Show(SERDE, t));
      if x == y {
        TokenTextsAgree(After(inside, x), s, after, t, after');
        CommonPrefix(PythonOne(x), Show(PYTHON_DUMPS, s), Show(PYTHON_DUMPS, t));
        CommonPrefix(TypeScriptOne(x), Utf16(Show(SERDE, s)), Utf16(Show(SERDE, t)));
      } else {
        DifferentTokensAgree(inside, x, y, Show(PYTHON_DUMPS, s), Show(PYTHON_DUMPS, t), Utf16(Show(SERDE, s)), Utf16(Show(SERDE, t)));
      }
    }
  }

  lemma ShowsSomething(ts: seq<Token>)
    ensures ts != [] ==> Show(PYTHON_DUMPS, ts) != [] && Utf16(Show(SERDE, ts)) != []
  {
    if ts != [] {
      assert ShowOne(PYTHON_DUMPS, ts[0]) != [] && ShowOne(SERDE, ts[0]) != [];
      Utf16Concat(ShowOne(SERDE, ts[0]), Show(SERDE, ts[1..]));
    }
  }

  /** Python and TypeScript order two values alike exactly when, at the first difference of the
      texts TypeScript compares, it is not one of `]` to `~` against something above `~`. */
  lemma TextOrdersAgreeIff(v: Json, w: Json)
    ensures (LexOrder.Less(PythonText(v), PythonText(w)) <==> LexOrder.Less(TypeScriptText(v), TypeScriptText(w)))
       <==> !Clash(TypeScriptText(v), TypeScriptText(w))
  {
    PrintShowsTokens(PYTHON_DUMPS, v);
    PrintShowsTokens(PYTHON_DUMPS, w);
    PrintShowsTokens(SERDE, v);
    PrintShowsTokens(SERDE, w);
    TokensFrame(v);
    TokensFrame(w);
    TokenTextsAgree(false, Tokens(v), false, Tokens(w), false);
  }

  lemma {:induction false} PlainTextsDoNotClash(s: string, t: string)
    requires forall c :: c in s ==> c <= '~'
    requires forall c :: c in t ==> c <= '~'
    ensures !Clash(s, t)
  {
    if s != [] && t != [] {
      assert s[0] in s && t[0] in t;
      assert (forall c :: c in s[1..] ==> c in s) && (forall c :: c in t[1..] ==> c in t);
      PlainTextsDoNotClash(s[1..], t[1..]);
    }
  }

  // ----- code points against code units -----

  /** At the first difference, one character is in U+E000 to U+FFFF and the other above U+FFFF. */
  predicate Straddle(s: string, t: string)
  {
    s != [] && t != [] && if s[0] == t[0] then Straddle(s[1..], t[1..]) else Straddles(s[0], t[0])
  }

  predicate Straddles(x: char, y: char)
  {
    (0xE000 <= x as int < 0x10000 <= y as int) || (0xE000 <= y as int < 0x10000 <= x as int)
  }

  lemma CharOrders(x: char, y: char, s: string, t: string)
    requires x != y
    ensures (x < y <==> LexOrder.Less(CharUnits(x) + s, CharUnits(y) + t)) <==> !Straddles(x, y)
  {
    var a, b := CharUnits(x), CharUnits(y);
    var n := if a[0] != b[0] then 0 else 1;
    PartedTexts(a, b, n, s, t);
  }

  /** Order by code point and order by UTF-16 code unit agree on two texts exactly when the first
      difference does not straddle U+FFFF in this way; so they sort keys and rank writer ids alike
      wherever that does not happen. */
  lemma {:induction false} UnitOrderAgreesIff(s: string, t: string)
    ensures (LexOrder.Less(s, t) <==> LexOrder.Less(Utf16(s), Utf16(t))) <==> !Straddle(s, t)
    decreases |s|
  {
    if s != [] && t != [] {
      if s[0] == t[0] {
        UnitOrderAgreesIff(s[1..], t[1..]);
        CommonPrefix(CharUnits(s[0]), Utf16(s[1..]), Utf16(t[1..]));
      } else {
        CharOrders(s[0], t[0], Utf16(s[1..]), Utf16(t[1..]));
      }
    }
  }
}
