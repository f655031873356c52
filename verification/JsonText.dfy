/** JSON strings as bytes: the scanner's escaping and a reader that follows
    section 7 of RFC 8259. */
module JsonText {
  import opened Text

  const Quote: Byte := 0x22
  const Backslash: Byte := 0x5C

  function HexDigit(n: nat): Byte
    requires n < 16
  {
    if n < 10 then 0x30 + n else 0x61 + (n - 10)
  }

  function EscapeByte(c: Byte): seq<Byte> {
    if c == Quote then [Backslash, Quote]
    else if c == Backslash then [Backslash, Backslash]
    else if c == 0x08 then [Backslash, 0x62]
    else if c == 0x0C then [Backslash, 0x66]
    else if c == 0x0A then [Backslash, 0x6E]
    else if c == 0x0D then [Backslash, 0x72]
    else if c == 0x09 then [Backslash, 0x74]
    else if c < 0x20 then [Backslash, 0x75, 0x30, 0x30, HexDigit(c / 16), HexDigit(c % 16)]
    else [c]
  }

  function Escape(s: seq<Byte>): seq<Byte> {
    if s == [] then [] else EscapeByte(s[0]) + Escape(s[1..])
  }

  lemma EscapeStep(s: seq<Byte>, i: nat)
    requires i < |s|
    ensures Escape(s[i..]) == EscapeByte(s[i]) + Escape(s[i + 1..])
  {
    hide EscapeByte;
    assert s[i..][0] == s[i] && s[i..][1..] == s[i + 1..];
  }

  lemma NothingToEscape(s: seq<Byte>)
    requires s == []
    ensures Escape(s) == []
  {
  }

  method AppendJsonEscapedUtf8(prefix: seq<Byte>, utf8: seq<Byte>) returns (r: seq<Byte>)
    ensures r == prefix + Escape(utf8)
  {
    hide Escape, HexDigit;
    r := prefix;
    var i := 0;
    assert utf8[0..] == utf8;
    while i < |utf8|
      invariant 0 <= i <= |utf8|
      invariant r + Escape(utf8[i..]) == prefix + Escape(utf8)
    {
      var c := utf8[i];
      ghost var before, rest := r, Escape(utf8[i + 1..]);
      EscapeStep(utf8, i);
      if c == Quote {
        r := r + [Backslash, Quote];
      } else if c == Backslash {
        r := r + [Backslash, Backslash];
      } else if c == 0x08 {
        r := r + [Backslash, 0x62];
      } else if c == 0x0C {
        r := r + [Backslash, 0x66];
      } else if c == 0x0A {
        r := r + [Backslash, 0x6E];
      } else if c == 0x0D {
        r := r + [Backslash, 0x72];
      } else if c == 0x09 {
        r := r + [Backslash, 0x74];
      } else if c < 0x20 {
        r := r + [Backslash, 0x75, 0x30, 0x30, HexDigit(c / 16), HexDigit(c % 16)];
      } else {
        r := r + [c];
      }
      assert r == before + EscapeByte(c);
      Regroup(before, EscapeByte(c), rest);
      i := i + 1;
    }
    NothingToEscape(utf8[i..]);
    assert r + [] == r;
  }

  // ---- Reading ----

  /** A string's bytes and what follows its closing quotation mark. */
  datatype Read = Read(value: seq<Byte>, rest: seq<Byte>)

  function HexValue(c: Byte): Option<nat> {
    if 0x30 <= c <= 0x39 then Some(c - 0x30)
    else if 0x41 <= c <= 0x46 then Some(c - 0x41 + 10)
    else if 0x61 <= c <= 0x66 then Some(c - 0x61 + 10)
    else None
  }

  /** The four hexadecimal digits of `\u`. */
  function HexFour(s: seq<Byte>): (r: Option<nat>)
    ensures r.Some? ==> r.value < 0x1_0000
  {
    if |s| < 4 then None
    else
      match (HexValue(s[0]), HexValue(s[1]), HexValue(s[2]), HexValue(s[3]))
      case (Some(a), Some(b), Some(c), Some(d)) =>
        if a < 16 && b < 16 && c < 16 && d < 16 then Some(((a * 16 + b) * 16 + c) * 16 + d) else None
      case _ => None
  }

  function Utf8(code: nat): seq<Byte>
    requires code < 0x11_0000
  {
    if code < 0x80 then [code]
    else if code < 0x800 then [0xC0 + code / 0x40, 0x80 + code % 0x40]
    else if code < 0x1_0000 then [0xE0 + code / 0x1000, 0x80 + code / 0x40 % 0x40, 0x80 + code % 0x40]
    else [0xF0 + code / 0x4_0000, 0x80 + code / 0x1000 % 0x40, 0x80 + code / 0x40 % 0x40, 0x80 + code % 0x40]
  }

  /** What one escape sequence stands for: `s` starts behind the backslash. */
  function ReadEscape(s: seq<Byte>): (r: Option<Read>)
    ensures r.Some? ==> |r.value.rest| < |s|
  {
    if s == [] then None
    else
      var c, rest := s[0], s[1..];
      if c == Quote || c == Backslash || c == 0x2F then Some(Read([c], rest))
      else if c == 0x62 then Some(Read([0x08], rest))
      else if c == 0x66 then Some(Read([0x0C], rest))
      else if c == 0x6E then Some(Read([0x0A], rest))
      else if c == 0x72 then Some(Read([0x0D], rest))
      else if c == 0x74 then Some(Read([0x09], rest))
      else if c != 0x75 then None
      else
        match HexFour(rest)
        case None => None
        case Some(unit) =>
          if unit < 0xD800 || unit >= 0xE000 then Some(Read(Utf8(unit), rest[4..]))
          else if unit >= 0xDC00 || |rest| < 10 || rest[4] != Backslash || rest[5] != 0x75 then None
          else
            match HexFour(rest[6..])
            case None => None
            case Some(low) =>
              if 0xDC00 <= low < 0xE000
              then Some(Read(Utf8(0x1_0000 + (unit - 0xD800) * 0x400 + (low - 0xDC00)), rest[10..]))
              else None
  }

  /** The characters of a string up to its closing quotation mark. */
  function ReadChars(s: seq<Byte>): (r: Option<Read>)
    ensures r.Some? ==> |r.value.rest| < |s|
    decreases |s|
  {
    if s == [] || s[0] < 0x20 then None
    else if s[0] == Quote then Some(Read([], s[1..]))
    else
      var first := if s[0] == Backslash then ReadEscape(s[1..]) else Some(Read([s[0]], s[1..]));
      match first
      case None => None
      case Some(f) =>
        match ReadChars(f.rest)
        case None => None
        case Some(more) => Some(Read(f.value + more.value, more.rest))
  }

  lemma ReadBehindBackslash(body: seq<Byte>, c: Byte, rest: seq<Byte>)
    requires ReadEscape(body + rest) == Some(Read([c], rest))
    ensures ReadChars([Backslash] + body + rest)
         == match ReadChars(rest) case None => None case Some(r) => Some(Read([c] + r.value, r.rest))
  {
    hide ReadEscape;
    var s := [Backslash] + body + rest;
    assert s[0] == Backslash && s[1..] == body + rest;
  }

  lemma ControlEscape(c: Byte, rest: seq<Byte>)
    requires c < 0x20
    ensures ReadEscape([0x75, 0x30, 0x30, HexDigit(c / 16), HexDigit(c % 16)] + rest) == Some(Read([c], rest))
  {
    var s := [0x75, 0x30, 0x30, HexDigit(c / 16), HexDigit(c % 16)] + rest;
    var t := s[1..];
    assert t[0] == 0x30 && t[1] == 0x30 && t[2] == HexDigit(c / 16) && t[3] == HexDigit(c % 16);
    assert HexFour(t) == Some(c);
    assert t[4..] == rest;
  }

  lemma EscapeBody(c: Byte, rest: seq<Byte>)
    requires |EscapeByte(c)| > 1
    ensures EscapeByte(c)[0] == Backslash && ReadEscape(EscapeByte(c)[1..] + rest) == Some(Read([c], rest))
  {
    if |EscapeByte(c)| == 2 {
      assert (EscapeByte(c)[1..] + rest)[1..] == rest;
    } else {
      ControlEscape(c, rest);
      assert EscapeByte(c)[1..] == [0x75, 0x30, 0x30, HexDigit(c / 16), HexDigit(c % 16)];
    }
  }

  /** The reader undoes one escaped byte. */
  lemma ReadEscapedByte(c: Byte, rest: seq<Byte>)
    ensures ReadChars(EscapeByte(c) + rest)
         == match ReadChars(rest) case None => None case Some(r) => Some(Read([c] + r.value, r.rest))
  {
    var e := EscapeByte(c);
    if |e| == 1 {
      assert (e + rest)[0] == c && (e + rest)[1..] == rest;
    } else {
      var body := e[1..];
      assert e == [Backslash] + body;
      EscapeBody(c, rest);
      hide ReadEscape, EscapeByte, ReadChars;
      ReadBehindBackslash(body, c, rest);
    }
  }

  /** Round trip: what was escaped is read back, whatever follows the closing
      quotation mark. So no unescaped quotation mark ends the string early. */
  lemma {:induction false} ReadEscaped(s: seq<Byte>, tail: seq<Byte>)
    ensures ReadChars(Escape(s) + [Quote] + tail) == Some(Read(s, tail))
  {
    hide EscapeByte;
    if s == [] {
      assert (Escape(s) + [Quote] + tail)[1..] == tail;
    } else {
      var rest := Escape(s[1..]) + [Quote] + tail;
      ReadEscaped(s[1..], tail);
      assert Escape(s) + [Quote] + tail == EscapeByte(s[0]) + rest;
      ReadEscapedByte(s[0], rest);
      assert [s[0]] + s[1..] == s;
    }
  }

  /** Length of the character at the front of a string's contents, by the grammar:
      an unescaped byte, which is no quotation mark, backslash or control byte, or an
      escape sequence; None for anything else. */
  function CharLen(s: seq<Byte>): (n: Option<nat>)
    ensures n.Some? ==> 1 <= n.value <= |s|
  {
    if s == [] || s[0] < 0x20 || s[0] == Quote then None
    else if s[0] != Backslash then Some(1)
    else if |s| >= 2 && s[1] in [Quote, Backslash, 0x2F, 0x62, 0x66, 0x6E, 0x72, 0x74] then Some(2)
    else if |s| >= 6 && s[1] == 0x75 && HexFour(s[2..]).Some? then Some(6)
    else None
  }

  /** A sequence of such characters and nothing else. */
  predicate IsChars(s: seq<Byte>)
    decreases |s|
  {
    s == [] || (CharLen(s).Some? && IsChars(s[CharLen(s).value..]))
  }

  lemma EscapedByteIsChar(c: Byte, rest: seq<Byte>)
    ensures CharLen(EscapeByte(c) + rest) == Some(|EscapeByte(c)|)
    ensures forall i :: 0 <= i < |EscapeByte(c)| ==> EscapeByte(c)[i] >= 0x20
  {
    var s := EscapeByte(c) + rest;
    if |EscapeByte(c)| == 6 {
      var t := s[2..];
      assert t[0] == 0x30 && t[1] == 0x30 && t[2] == HexDigit(c / 16) && t[3] == HexDigit(c % 16);
      assert HexFour(t).Some?;
    }
  }

  /** Escaped text is a sequence of characters of the grammar: every quotation mark
      and every backslash in it belongs to an escape sequence. It holds no control
      byte. */
  lemma {:induction false} EscapedIsWellFormed(s: seq<Byte>)
    ensures IsChars(Escape(s))
    ensures forall i :: 0 <= i < |Escape(s)| ==> Escape(s)[i] >= 0x20
  {
    if s != [] {
      var e, rest := EscapeByte(s[0]), Escape(s[1..]);
      EscapedByteIsChar(s[0], rest);
      EscapedIsWellFormed(s[1..]);
      hide EscapeByte, CharLen;
      assert (e + rest)[|e|..] == rest;
    }
  }

  /** The bytes that are written as two characters, and those written as six: the escapes
      of section 7 of RFC 8259 that the writer uses. Every other byte stands for itself. */
  lemma EscapesAreJson(c: Byte)
    ensures c == '"' as int ==> Escape([c]) == ['\\' as int, '"' as int]
    ensures c == '\\' as int ==> Escape([c]) == ['\\' as int, '\\' as int]
    ensures c == 8 ==> Escape([c]) == ['\\' as int, 'b' as int]
    ensures c == 9 ==> Escape([c]) == ['\\' as int, 't' as int]
    ensures c == 10 ==> Escape([c]) == ['\\' as int, 'n' as int]
    ensures c == 12 ==> Escape([c]) == ['\\' as int, 'f' as int]
    ensures c == 13 ==> Escape([c]) == ['\\' as int, 'r' as int]
    ensures c < 32 && c !in {8, 9, 10, 12, 13} ==>
              |Escape([c])| == 6 && Escape([c])[..4] == ['\\' as int, 'u' as int, '0' as int, '0' as int]
    ensures c >= 32 && c != '"' as int && c != '\\' as int ==> Escape([c]) == [c]
  {
    assert Escape([c]) == EscapeByte(c) + Escape([c][1..]);
    assert EscapeByte(c) + [] == EscapeByte(c);
  }

  lemma CharLenInFront(text: seq<Byte>, more: seq<Byte>)
    requires CharLen(text).Some?
    ensures CharLen(text + more) == CharLen(text)
  {
    var s := text + more;
    assert s[0] == text[0] && (|text| > 1 ==> s[1] == text[1]);
    if |text| >= 6 {
      var a, b := text[2..], s[2..];
      assert forall i :: 0 <= i < 4 ==> a[i] == b[i];
    }
  }

  /** A bare quotation mark or control byte can stand behind no well-formed text, and a bare
      backslash can end none. */
  lemma {:induction false} BareBytesAreRefused(text: seq<Byte>, c: Byte, rest: seq<Byte>)
    requires IsChars(text)
    ensures c == Quote || c < 0x20 ==> !IsChars(text + [c] + rest)
    ensures !IsChars(text + [Backslash])
    decreases |text|
  {
    var s, t := text + [c] + rest, text + [Backslash];
    if text == [] {
      assert s[0] == c && t == [Backslash];
    } else {
      var n := CharLen(text).value;
      CharLenInFront(text, [c] + rest);
      CharLenInFront(text, [Backslash]);
      assert text + ([c] + rest) == s;
      assert s[n..] == text[n..] + [c] + rest && t[n..] == text[n..] + [Backslash];
      BareBytesAreRefused(text[n..], c, rest);
    }
  }

  /** The reader decodes `\u` into UTF-8, with two, three and, by a pair of surrogates, four
      bytes, and takes hexadecimal digits of either case. */
  lemma ReaderDecodesUnicode(rest: seq<Byte>)
    ensures ReadEscape(['u' as int, '0' as int, '0' as int, 'e' as int, '9' as int] + rest)
         == Some(Read([0xC3, 0xA9], rest))
    ensures ReadEscape(['u' as int, '2' as int, '0' as int, 'A' as int, 'C' as int] + rest)
         == Some(Read([0xE2, 0x82, 0xAC], rest))
    ensures ReadEscape(['u' as int, 'd' as int, '8' as int, '3' as int, 'd' as int,
                        Backslash, 'u' as int, 'd' as int, 'e' as int, '0' as int, '0' as int] + rest)
         == Some(Read([0xF0, 0x9F, 0x98, 0x80], rest))
  {
    var two := ['u' as int, '0' as int, '0' as int, 'e' as int, '9' as int] + rest;
    assert two[1..][4..] == rest && HexFour(two[1..]) == Some(0xE9);
    var three := ['u' as int, '2' as int, '0' as int, 'A' as int, 'C' as int] + rest;
    assert three[1..][4..] == rest && HexFour(three[1..]) == Some(0x20AC);
    var four := ['u' as int, 'd' as int, '8' as int, '3' as int, 'd' as int,
                 Backslash, 'u' as int, 'd' as int, 'e' as int, '0' as int, '0' as int] + rest;
    assert HexFour(four[1..]) == Some(0xD83D) && HexFour(four[1..][6..]) == Some(0xDE00);
    assert four[1..][10..] == rest;
  }

  // ---- Values ----

  datatype Member = Member(name: seq<Byte>, value: Value)

  /** A JSON text without insignificant white space, as a reader of RFC 8259 sees it:
      numbers without sign, fraction and exponent. */
  datatype Value =
    | Num(digits: seq<Byte>)
    | Str(bytes: seq<Byte>)
    | Arr(items: seq<Value>)
    | Obj(members: seq<Member>)

  datatype Reading<T> = Got(value: T, rest: seq<Byte>) | Bad

  function DigitsEnd(s: seq<Byte>): (n: nat)
    ensures n <= |s|
  {
    if s == [] || !('0' as int <= s[0] <= '9' as int) then 0 else 1 + DigitsEnd(s[1..])
  }

  /** The items of an array that is not empty, through its closing bracket. */
  function ReadItems(s: seq<Byte>): (r: Reading<seq<Value>>)
    ensures r.Got? ==> |r.rest| < |s|
    decreases |s|, 1
  {
    match ReadValue(s)
    case Bad => Bad
    case Got(item, rest) =>
      if rest == [] then Bad
      else if rest[0] == ']' as int then Got([item], rest[1..])
      else if rest[0] != ',' as int then Bad
      else (match ReadItems(rest[1..]) case Bad => Bad case Got(more, end) => Got([item] + more, end))
  }

  function ReadValue(s: seq<Byte>): (r: Reading<Value>)
    ensures r.Got? ==> |r.rest| < |s|
    decreases |s|, 0
  {
    if s == [] then Bad
    else if s[0] == '"' as int then
      (match ReadChars(s[1..]) case None => Bad case Some(r) => Got(Str(r.value), r.rest))
    else if s[0] == '[' as int then
      if |s| > 1 && s[1] == ']' as int then Got(Arr([]), s[2..])
      else (match ReadItems(s[1..]) case Bad => Bad case Got(items, rest) => Got(Arr(items), rest))
    else if s[0] == '{' as int then
      if |s| > 1 && s[1] == '}' as int then Got(Obj([]), s[2..])
      else (match ReadMembers(s[1..]) case Bad => Bad case Got(members, rest) => Got(Obj(members), rest))
    else
      var n := DigitsEnd(s);
      if n == 0 then Bad else Got(Num(s[..n]), s[n..])
  }

  /** The members of an object that is not empty, through its closing brace. */
  function ReadMembers(s: seq<Byte>): (r: Reading<seq<Member>>)
    ensures r.Got? ==> |r.rest| < |s|
    decreases |s|, 1
  {
    if s == [] || s[0] != '"' as int then Bad
    else
      match ReadChars(s[1..])
      case None => Bad
      case Some(name) =>
        if name.rest == [] || name.rest[0] != ':' as int then Bad
        else
          match ReadValue(name.rest[1..])
          case Bad => Bad
          case Got(value, rest) =>
            var member := Member(name.value, value);
            if rest == [] then Bad
            else if rest[0] == '}' as int then Got([member], rest[1..])
            else if rest[0] != ',' as int then Bad
            else (match ReadMembers(rest[1..]) case Bad => Bad case Got(more, end) => Got([member] + more, end))
  }

  lemma ReadQuoted(bytes: seq<Byte>, tail: seq<Byte>)
    ensures ReadValue([Quote] + Escape(bytes) + [Quote] + tail) == Got(Str(bytes), tail)
  {
    hide Escape, ReadChars;
    var s := [Quote] + Escape(bytes) + [Quote] + tail;
    assert s[1..] == Escape(bytes) + [Quote] + tail;
    ReadEscaped(bytes, tail);
  }

  /** One member of an object and what comes behind it. */
  lemma ReadMember(name: seq<Byte>, text: seq<Byte>, value: Value, tail: seq<Byte>)
    requires ReadValue(text + tail) == Got(value, tail) && tail != []
    ensures ReadMembers([Quote] + Escape(name) + [Quote] + [':' as int] + text + tail)
         == if tail[0] == '}' as int then Got([Member(name, value)], tail[1..])
            else if tail[0] != ',' as int then Bad
            else match ReadMembers(tail[1..])
                 case Bad => Bad
                 case Got(more, end) => Got([Member(name, value)] + more, end)
  {
    hide Escape, ReadChars, ReadValue;
    var rest := [':' as int] + text + tail;
    var s := [Quote] + Escape(name) + [Quote] + [':' as int] + text + tail;
    assert s[1..] == Escape(name) + [Quote] + rest;
    ReadEscaped(name, rest);
    assert rest[1..] == text + tail;
  }
}
