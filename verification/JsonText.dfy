/** JSON trees and their compact texts: the recursive part of the canonical printers, a
    reader for those texts, and the proof that the reader undoes the printer. */
module JsonText {
  import opened Wrappers

  datatype Json =
    | Null
    | Bool(b: bool)
    | Num(n: int)
    | Str(s: string)
    | Arr(items: seq<Json>)
    | Obj(members: seq<Member>)

  datatype Member = Member(key: string, value: Json)

  /** What the printers differ in: `spaced` puts a blank after `,` and `:`; `asciiOnly`
      escapes everything outside the printable ASCII range; `html` escapes `<`, `>`, `&`
      and the two Unicode line separators, as Go does. */
  datatype Dialect = Dialect(spaced: bool, asciiOnly: bool, html: bool)

  const SERDE := Dialect(false, false, false)
  const PYTHON_DUMPS := Dialect(true, true, false)

  function ItemSep(d: Dialect): string { if d.spaced then ", " else "," }

  function KeySep(d: Dialect): string { if d.spaced then ": " else ":" }

  // ----- numbers -----

  function DigitChar(n: int): char
    requires 0 <= n < 10
  {
    '0' + n as char
  }

  predicate IsDigit(c: char) { '0' <= c <= '9' }

  function DigitValue(c: char): int
    requires IsDigit(c)
  {
    c as int - '0' as int
  }

  function Digits(n: nat): string
  {
    if n < 10 then [DigitChar(n)] else Digits(n / 10) + [DigitChar(n % 10)]
  }

  function PrintInt(n: int): string
  {
    if n < 0 then "-" + Digits(-n) else Digits(n)
  }

  // ----- strings (section 7 of RFC 8259) -----

  function HexChar(n: int): char
    requires 0 <= n < 16
  {
    if n < 10 then '0' + n as char else 'a' + (n - 10) as char
  }

  predicate IsHex(c: char) { '0' <= c <= '9' || 'a' <= c <= 'f' }

  function HexValue(c: char): int
    requires IsHex(c)
  {
    if c <= '9' then c as int - '0' as int else c as int - 'a' as int + 10
  }

  function Unit(n: int): string
    requires 0 <= n < 0x10000
  {
    ['\\', 'u', HexChar(n / 4096), HexChar(n / 256 % 16), HexChar(n / 16 % 16), HexChar(n % 16)]
  }

  predicate NeedsUnit(d: Dialect, c: char)
  {
    c as int < 0x20
    || (d.asciiOnly && c as int > 0x7e)
    || (d.html && (c == '<' || c == '>' || c == '&' || c as int == 0x2028 || c as int == 0x2029))
  }

  /** The letter of a two-character escape. */
  function ShortForm(c: char): Option<char>
  {
    if c == '"' || c == '\\' then Some(c)
    else if c as int == 8 then Some('b')
    else if c as int == 12 then Some('f')
    else if c == '\n' then Some('n')
    else if c == '\r' then Some('r')
    else if c == '\t' then Some('t')
    else None
  }

  function Escape(d: Dialect, c: char): string
  {
    match ShortForm(c)
    case Some(x) => ['\\', x]
    case None =>
      if !NeedsUnit(d, c) then [c]
      else if c as int < 0x10000 then Unit(c as int)
      else Unit(0xD800 + (c as int - 0x10000) / 1024) + Unit(0xDC00 + (c as int - 0x10000) % 1024)
  }

  function EscapeAll(d: Dialect, s: string): string
  {
    if s == [] then [] else Escape(d, s[0]) + EscapeAll(d, s[1..])
  }

  function Quote(d: Dialect, s: string): string
  {
    "\"" + EscapeAll(d, s) + "\""
  }

  // ----- the printer, members in the order given -----

  function Print(d: Dialect, v: Json): string
    decreases v
  {
    match v
    case Null => "null"
    case Bool(b) => if b then "true" else "false"
    case Num(n) => PrintInt(n)
    case Str(s) => Quote(d, s)
    case Arr(items) => "[" + PrintItems(d, items) + "]"
    case Obj(members) => "{" + PrintMembers(d, members) + "}"
  }

  function PrintItems(d: Dialect, items: seq<Json>): string
    decreases items
  {
    if items == [] then ""
    else Print(d, items[0]) + (if |items| > 1 then ItemSep(d) else "") + PrintItems(d, items[1..])
  }

  function PrintMember(d: Dialect, m: Member): string
    decreases m
  {
    Quote(d, m.key) + KeySep(d) + Print(d, m.value)
  }

  function PrintMembers(d: Dialect, ms: seq<Member>): string
    decreases ms
  {
    if ms == [] then ""
    else PrintMember(d, ms[0]) + (if |ms| > 1 then ItemSep(d) else "") + PrintMembers(d, ms[1..])
  }

  // ----- the reader -----

  datatype Parsed<T> = Fail | Got(value: T, rest: string)

  function ReadNat(acc: int, s: string): (int, string)
    ensures |ReadNat(acc, s).1| <= |s|
    decreases |s|
  {
    if s != [] && IsDigit(s[0]) then ReadNat(acc * 10 + DigitValue(s[0]), s[1..]) else (acc, s)
  }

  /** The value of `\uXXXX` at the start of `s`, or -1. */
  function ReadUnit(s: string): int
  {
    if |s| >= 6 && s[0] == '\\' && s[1] == 'u' && IsHex(s[2]) && IsHex(s[3]) && IsHex(s[4]) && IsHex(s[5])
    then HexValue(s[2]) * 4096 + HexValue(s[3]) * 256 + HexValue(s[4]) * 16 + HexValue(s[5])
    else -1
  }

  function ShortMeaning(x: char): Option<char>
  {
    if x == '"' || x == '\\' || x == '/' then Some(x)
    else if x == 'b' then Some(8 as char)
    else if x == 'f' then Some(12 as char)
    else if x == 'n' then Some('\n')
    else if x == 'r' then Some('\r')
    else if x == 't' then Some('\t')
    else None
  }

  function ReadEscape(s: string): (r: Parsed<char>)
    ensures r.Got? ==> |r.rest| < |s|
  {
    if |s| < 2 || s[0] != '\\' then Fail
    else if s[1] == 'u' then ReadUnits(s)
    else
      match ShortMeaning(s[1])
      case Some(c) => Got(c, s[2..])
      case None => Fail
  }

  /** One `\uXXXX`, or a surrogate pair of them. */
  function ReadUnits(s: string): (r: Parsed<char>)
    ensures r.Got? ==> |r.rest| < |s|
  {
    var hi := ReadUnit(s);
    if hi < 0 then Fail
    else if hi < 0xD800 || (0xE000 <= hi < 0x10000) then Got(hi as char, s[6..])
    else
      var lo := ReadUnit(s[6..]);
      if hi < 0xDC00 <= lo < 0xE000
      then Got((0x10000 + (hi - 0xD800) * 1024 + (lo - 0xDC00)) as char, s[12..])
      else Fail
  }

  /** The characters up to the closing quotation mark. */
  function ReadChars(s: string): (r: Parsed<string>)
    ensures r.Got? ==> |r.rest| < |s|
  {
    if s == [] then Fail
    else if s[0] == '"' then Got([], s[1..])
    else if s[0] == '\\' then
      match ReadEscape(s)
      case Fail => Fail
      case Got(c, rest) => Prepend(c, ReadChars(rest))
    else if s[0] as int < 0x20 then Fail
    else Prepend(s[0], ReadChars(s[1..]))
  }

  function Prepend(c: char, r: Parsed<string>): Parsed<string>
  {
    match r
    case Fail => Fail
    case Got(t, rest) => Got([c] + t, rest)
  }

  function ReadWord(word: string, v: Json, s: string): Parsed<Json>
  {
    if word <= s then Got(v, s[|word|..]) else Fail
  }

  function ReadNumber(s: string): (r: Parsed<Json>)
    ensures r.Got? ==> |r.rest| < |s|
  {
    if s == [] then Fail
    else if IsDigit(s[0]) then
      var (n, rest) := ReadNat(DigitValue(s[0]), s[1..]);
      Got(Num(n), rest)
    else if |s| > 1 && s[0] == '-' && IsDigit(s[1]) then
      var (n, rest) := ReadNat(0, s[1..]);
      Got(Num(-n), rest)
    else Fail
  }

  function ReadString(s: string): (r: Parsed<string>)
    ensures r.Got? ==> |r.rest| < |s|
  {
    if s != [] && s[0] == '"' then ReadChars(s[1..]) else Fail
  }

  function Read(d: Dialect, s: string): (r: Parsed<Json>)
    ensures r.Got? ==> |r.rest| < |s|
    decreases |s|, 1
  {
    if s == [] then Fail
    else if s[0] == 'n' then ReadWord("null", Null, s)
    else if s[0] == 't' then ReadWord("true", Bool(true), s)
    else if s[0] == 'f' then ReadWord("false", Bool(false), s)
    else if s[0] == '"' then
      match ReadString(s)
      case Fail => Fail
      case Got(t, rest) => Got(Str(t), rest)
    else if s[0] == '[' then ReadArray(d, s)
    else if s[0] == '{' then ReadObject(d, s)
    else ReadNumber(s)
  }

  function ReadArray(d: Dialect, s: string): (r: Parsed<Json>)
    ensures r.Got? ==> |r.rest| < |s|
    decreases |s|, 0
  {
    if |s| < 2 then Fail
    else if s[1] == ']' then Got(Arr([]), s[2..])
    else
      match ReadItems(d, s[1..])
      case Fail => Fail
      case Got(items, rest) => Got(Arr(items), rest)
  }

  function ReadObject(d: Dialect, s: string): (r: Parsed<Json>)
    ensures r.Got? ==> |r.rest| < |s|
    decreases |s|, 0
  {
    if |s| < 2 then Fail
    else if s[1] == '}' then Got(Obj([]), s[2..])
    else
      match ReadMembers(d, s[1..])
      case Fail => Fail
      case Got(ms, rest) => Got(Obj(ms), rest)
  }

  function ReadItems(d: Dialect, s: string): (r: Parsed<seq<Json>>)
    ensures r.Got? ==> |r.rest| < |s|
    decreases |s|, 2
  {
    match Read(d, s)
    case Fail => Fail
    case Got(v, rest) =>
      if rest != [] && rest[0] == ']' then Got([v], rest[1..])
      else if ItemSep(d) <= rest then
        match ReadItems(d, rest[|ItemSep(d)|..])
        case Fail => Fail
        case Got(vs, rest') => Got([v] + vs, rest')
      else Fail
  }

  function ReadMember(d: Dialect, s: string): (r: Parsed<Member>)
    ensures r.Got? ==> |r.rest| < |s|
    decreases |s|, 2
  {
    match ReadString(s)
    case Fail => Fail
    case Got(key, afterKey) =>
      if !(KeySep(d) <= afterKey) then Fail
      else
        match Read(d, afterKey[|KeySep(d)|..])
        case Fail => Fail
        case Got(v, rest) => Got(Member(key, v), rest)
  }

  function ReadMembers(d: Dialect, s: string): (r: Parsed<seq<Member>>)
    ensures r.Got? ==> |r.rest| < |s|
    decreases |s|, 3
  {
    match ReadMember(d, s)
    case Fail => Fail
    case Got(m, rest) =>
      if rest != [] && rest[0] == '}' then Got([m], rest[1..])
      else if ItemSep(d) <= rest then
        match ReadMembers(d, rest[|ItemSep(d)|..])
        case Fail => Fail
        case Got(ms, rest') => Got([m] + ms, rest')
      else Fail
  }

  // ----- the reader undoes the printer -----

  lemma ReadOneDigit(acc: int, n: int, rest: string)
    requires 0 <= n < 10
    ensures ReadNat(acc, [DigitChar(n)] + rest) == ReadNat(acc * 10 + n, rest)
  {
    assert ([DigitChar(n)] + rest)[1..] == rest;
  }

  lemma {:induction false} ReadDigits(n: nat, rest: string)
    ensures ReadNat(0, Digits(n) + rest) == ReadNat(n, rest)
    ensures IsDigit(Digits(n)[0])
    ensures ReadNat(DigitValue(Digits(n)[0]), Digits(n)[1..] + rest) == ReadNat(n, rest)
  {
    if n < 10 {
      ReadOneDigit(0, n, rest);
      assert Digits(n)[1..] + rest == rest;
    } else {
      var front, last := Digits(n / 10), [DigitChar(n % 10)];
      ReadDigits(n / 10, last + rest);
      ReadOneDigit(n / 10, n % 10, rest);
      Joined(front, last, rest);
      Joined(front[1..], last, rest);
      assert Digits(n)[1..] == front[1..] + last;
    }
  }

  lemma HexRoundTrip(n: int)
    requires 0 <= n < 16
    ensures IsHex(HexChar(n)) && HexValue(HexChar(n)) == n
  {
  }

  lemma Nibbles(n: int)
    requires 0 <= n < 0x10000
    ensures 0 <= n / 4096 < 16
    ensures n == n / 4096 * 4096 + n / 256 % 16 * 256 + n / 16 % 16 * 16 + n % 16
  {
    assert n / 256 / 16 == n / 4096 && n / 16 / 16 == n / 256;
  }

  lemma ReadUnitOfUnit(n: int, rest: string)
    requires 0 <= n < 0x10000
    ensures ReadUnit(Unit(n) + rest) == n
    ensures (Unit(n) + rest)[6..] == rest
  {
    HexRoundTrip(n / 4096);
    HexRoundTrip(n / 256 % 16);
    HexRoundTrip(n / 16 % 16);
    HexRoundTrip(n % 16);
    Nibbles(n);
  }

  lemma ReadUnitEscape(n: int, rest: string)
    requires 0 <= n < 0xD800 || 0xE000 <= n < 0x10000
    ensures ReadUnits(Unit(n) + rest) == Got(n as char, rest)
  {
    ReadUnitOfUnit(n, rest);
  }

  lemma ReadPairEscape(hi: int, lo: int, rest: string)
    requires 0xD800 <= hi < 0xDC00 <= lo < 0xE000
    ensures ReadUnits(Unit(hi) + Unit(lo) + rest) == Got((0x10000 + (hi - 0xD800) * 1024 + (lo - 0xDC00)) as char, rest)
  {
    var s := Unit(hi) + Unit(lo) + rest;
    assert s == Unit(hi) + (Unit(lo) + rest);
    ReadUnitOfUnit(hi, Unit(lo) + rest);
    ReadUnitOfUnit(lo, rest);
    assert s[12..] == s[6..][6..];
  }

  lemma ReadShortEscape(c: char, x: char, rest: string)
    requires ShortForm(c) == Some(x)
    ensures ReadEscape(['\\', x] + rest) == Got(c, rest)
  {
    assert (['\\', x] + rest)[2..] == rest;
  }

  lemma ReadLongEscape(d: Dialect, c: char, rest: string)
    requires ShortForm(c).None? && NeedsUnit(d, c)
    ensures ReadUnits(Escape(d, c) + rest) == Got(c, rest)
  {
    if c as int < 0x10000 {
      ReadUnitEscape(c as int, rest);
    } else {
      var x := c as int - 0x10000;
      var hi, lo := 0xD800 + x / 1024, 0xDC00 + x % 1024;
      assert Escape(d, c) == Unit(hi) + Unit(lo);
      assert 0x10000 + (hi - 0xD800) * 1024 + (lo - 0xDC00) == c as int;
      ReadPairEscape(hi, lo, rest);
    }
  }

  lemma ReadOneChar(d: Dialect, c: char, rest: string)
    ensures ReadChars(Escape(d, c) + rest) == Prepend(c, ReadChars(rest))
  {
    match ShortForm(c)
    case Some(x) =>
      ReadShortEscape(c, x, rest);
    case None =>
      if NeedsUnit(d, c) {
        ReadLongEscape(d, c, rest);
        var s := Escape(d, c) + rest;
        assert s[0] == '\\' && s[1] == 'u';
        assert ReadEscape(s) == ReadUnits(s);
      } else {
        assert ([c] + rest)[1..] == rest;
      }
  }

  lemma {:induction false} ReadQuoted(d: Dialect, s: string, rest: string)
    ensures ReadChars(EscapeAll(d, s) + "\"" + rest) == Got(s, rest)
  {
    if s == [] {
      assert EscapeAll(d, s) + "\"" + rest == "\"" + rest;
      assert ("\"" + rest)[1..] == rest;
    } else {
      var tail := EscapeAll(d, s[1..]) + "\"" + rest;
      assert EscapeAll(d, s) + "\"" + rest == Escape(d, s[0]) + tail;
      ReadOneChar(d, s[0], tail);
      ReadQuoted(d, s[1..], rest);
      assert s == [s[0]] + s[1..];
    }
  }

  /** What may follow a printed value: the end, or a character that closes or separates. */
  predicate Delimited(rest: string)
  {
    rest == [] || rest[0] == ',' || rest[0] == ']' || rest[0] == '}'
  }

  lemma ReadPrintedNat(n: nat, rest: string)
    requires Delimited(rest)
    ensures ReadNumber(Digits(n) + rest) == Got(Num(n), rest) && IsDigit(Digits(n)[0])
  {
    ReadDigits(n, rest);
    assert (Digits(n) + rest)[1..] == Digits(n)[1..] + rest;
  }

  lemma NegativeNumber(digits: string, n: int, rest: string)
    requires digits != [] && IsDigit(digits[0]) && ReadNat(0, digits) == (n, rest)
    ensures ReadNumber("-" + digits) == Got(Num(-n), rest)
  {
    assert ("-" + digits)[1..] == digits;
  }

  lemma ReadPrintedInt(n: int, rest: string)
    requires Delimited(rest)
    ensures ReadNumber(PrintInt(n) + rest) == Got(Num(n), rest)
    ensures PrintInt(n)[0] == '-' || IsDigit(PrintInt(n)[0])
  {
    if n < 0 {
      ReadDigits(-n, rest);
      NegativeNumber(Digits(-n) + rest, -n, rest);
      Joined("-", Digits(-n), rest);
    } else {
      ReadPrintedNat(n, rest);
    }
  }

  lemma ReadPrintedString(d: Dialect, t: string, rest: string)
    ensures ReadString(Quote(d, t) + rest) == Got(t, rest)
  {
    ReadQuoted(d, t, rest);
    assert (Quote(d, t) + rest)[1..] == EscapeAll(d, t) + "\"" + rest;
  }

  lemma ReadPrintedWord(word: string, v: Json, rest: string)
    ensures ReadWord(word, v, word + rest) == Got(v, rest)
  {
    assert (word + rest)[|word|..] == rest;
  }

  /** Unique readability: reading back a printed tree gives that tree and what followed it. */
  lemma {:induction false} ReadPrinted(d: Dialect, v: Json, rest: string)
    requires Delimited(rest)
    ensures Read(d, Print(d, v) + rest) == Got(v, rest)
    decreases v, 0
  {
    match v
    case Null => ReadPrintedWord("null", v, rest);
    case Bool(b) => ReadPrintedWord(if b then "true" else "false", v, rest);
    case Num(n) => ReadPrintedInt(n, rest);
    case Str(t) => ReadPrintedString(d, t, rest);
    case Arr(items) => ReadPrintedArray(d, items, rest);
    case Obj(ms) => ReadPrintedObject(d, ms, rest);
  }

  lemma ArrayOfItems(d: Dialect, items: seq<Json>, body: string, rest: string)
    requires body != [] && body[0] != ']' && ReadItems(d, body) == Got(items, rest)
    ensures ReadArray(d, "[" + body) == Got(Arr(items), rest)
  {
    assert ("[" + body)[1..] == body;
  }

  lemma Enclosed(open: string, body: string, close: string, rest: string)
    ensures open + body + close + rest == open + (body + close + rest)
  {
  }

  lemma {:induction false} ReadPrintedArray(d: Dialect, items: seq<Json>, rest: string)
    ensures ReadArray(d, Print(d, Arr(items)) + rest) == Got(Arr(items), rest)
    decreases items, 1
  {
    Enclosed("[", PrintItems(d, items), "]", rest);
    if items == [] {
      assert ("[" + "" + "]" + rest)[2..] == rest;
    } else {
      ReadPrintedItems(d, items, rest);
      FirstCharOfItems(d, items);
      ArrayOfItems(d, items, PrintItems(d, items) + "]" + rest, rest);
    }
  }

  lemma {:induction false} ReadPrintedObject(d: Dialect, ms: seq<Member>, rest: string)
    ensures ReadObject(d, Print(d, Obj(ms)) + rest) == Got(Obj(ms), rest)
    decreases ms, 1
  {
    var s := Print(d, Obj(ms)) + rest;
    if ms == [] {
      assert s[2..] == rest;
    } else {
      ReadPrintedMembers(d, ms, rest);
      assert s[1..] == PrintMembers(d, ms) + "}" + rest;
      assert s[1] == '"';
    }
  }

  lemma FirstCharOfItems(d: Dialect, items: seq<Json>)
    requires items != []
    ensures PrintItems(d, items) != [] && PrintItems(d, items)[0] != ']'
  {
    var v := items[0];
    if v.Num? {
      ReadPrintedInt(v.n, "");
    }
    assert Print(d, v) != [] && Print(d, v)[0] != ']';
  }

  lemma {:induction false} ReadPrintedItems(d: Dialect, items: seq<Json>, rest: string)
    requires items != []
    ensures ReadItems(d, PrintItems(d, items) + "]" + rest) == Got(items, rest)
    decreases items, 0
  {
    var v, sep := items[0], ItemSep(d);
    if |items| == 1 {
      assert PrintItems(d, items) + "]" + rest == Print(d, v) + ("]" + rest) by {
        assert PrintItems(d, items) == Print(d, v);
      }
      ReadPrinted(d, v, "]" + rest);
      assert ("]" + rest)[1..] == rest;
      assert items == [v];
    } else {
      var tail := PrintItems(d, items[1..]) + "]" + rest;
      assert PrintItems(d, items) + "]" + rest == Print(d, v) + (sep + tail);
      ReadPrinted(d, v, sep + tail);
      assert (sep + tail)[|sep|..] == tail;
      ReadPrintedItems(d, items[1..], rest);
      assert items == [v] + items[1..];
    }
  }

  lemma {:induction false} ReadPrintedMember(d: Dialect, m: Member, rest: string)
    requires Delimited(rest)
    ensures ReadMember(d, PrintMember(d, m) + rest) == Got(m, rest)
    decreases m
  {
    var sep, value := KeySep(d), Print(d, m.value) + rest;
    assert PrintMember(d, m) + rest == Quote(d, m.key) + (sep + value);
    ReadPrintedString(d, m.key, sep + value);
    ReadPrinted(d, m.value, rest);
    assert sep <= sep + value && (sep + value)[|sep|..] == value;
  }

  lemma LastMember(d: Dialect, m: Member, s: string, rest: string)
    requires ReadMember(d, s) == Got(m, "}" + rest)
    ensures ReadMembers(d, s) == Got([m], rest)
  {
    assert ("}" + rest)[1..] == rest;
  }

  lemma MoreMembers(d: Dialect, m: Member, ms: seq<Member>, s: string, tail: string, rest: string)
    requires ReadMember(d, s) == Got(m, ItemSep(d) + tail) && ReadMembers(d, tail) == Got(ms, rest)
    ensures ReadMembers(d, s) == Got([m] + ms, rest)
  {
    assert (ItemSep(d) + tail)[|ItemSep(d)|..] == tail;
    assert ItemSep(d) <= ItemSep(d) + tail;
  }

  lemma {:induction false} ReadPrintedMembers(d: Dialect, ms: seq<Member>, rest: string)
    requires ms != []
    ensures ReadMembers(d, PrintMembers(d, ms) + "}" + rest) == Got(ms, rest)
    decreases ms, 0
  {
    var m, sep := ms[0], ItemSep(d);
    if |ms| == 1 {
      assert PrintMembers(d, ms) == PrintMember(d, m);
      Joined(PrintMember(d, m), "}", rest);
      ReadPrintedMember(d, m, "}" + rest);
      LastMember(d, m, PrintMembers(d, ms) + "}" + rest, rest);
      assert ms == [m];
    } else {
      var tail := PrintMembers(d, ms[1..]) + "}" + rest;
      assert PrintMembers(d, ms) + "}" + rest == PrintMember(d, m) + (sep + tail);
      ReadPrintedMember(d, m, sep + tail);
      ReadPrintedMembers(d, ms[1..], rest);
      MoreMembers(d, m, ms[1..], PrintMembers(d, ms) + "}" + rest, tail, rest);
      assert ms == [m] + ms[1..];
    }
  }

  lemma Joined(a: string, b: string, c: string)
    ensures a + b + c == a + (b + c)
  {
  }

  /** Two printed trees followed by delimited text are equal only if tree and text are. */
  lemma UniquelyReadable(d: Dialect, v: Json, rest: string, w: Json, rest': string)
    requires Delimited(rest) && Delimited(rest')
    requires Print(d, v) + rest == Print(d, w) + rest'
    ensures v == w && rest == rest'
  {
    ReadPrinted(d, v, rest);
    ReadPrinted(d, w, rest');
  }
}
