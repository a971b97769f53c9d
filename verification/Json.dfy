/** json_escape of src/main.c against the string grammar of section 7 of RFC 8259. */
module Json {
  import opened Bytes

  const QUOTE: byte := 0x22
  const BACKSLASH: byte := 0x5C

  function Hex(d: nat): (h: byte)
    requires d < 16
  {
    if d < 10 then 0x30 + d else 0x61 + (d - 10)
  }

  /** What the switch emits for one byte. */
  function EscapeByte(c: byte): (e: seq<byte>)
    ensures e != []
  {
    if c == QUOTE then [BACKSLASH, QUOTE]
    else if c == BACKSLASH then [BACKSLASH, BACKSLASH]
    else if c == 0x0A then [BACKSLASH, 0x6E]
    else if c == 0x0D then [BACKSLASH, 0x72]
    else if c == 0x09 then [BACKSLASH, 0x74]
    else if c < 0x20 then [BACKSLASH, 0x75, 0x30, 0x30, Hex(c / 16), Hex(c % 16)]
    else [c]
  }

  function EscapeAll(s: seq<byte>): seq<byte> {
    if s == [] then [] else EscapeByte(s[0]) + EscapeAll(s[1..])
  }

  function Escape(s: seq<byte>): seq<byte> {
    [QUOTE] + EscapeAll(s) + [QUOTE]
  }

  /** The loop over the C string in `mem`, writing to a stream. */
  method JsonEscape(mem: seq<byte>) returns (out: seq<byte>)
    requires 0 in mem
    ensures out == Escape(CStr(mem))
  {
    hide EscapeAll, CStr;
    out := [QUOTE];
    var s := 0;
    ghost var str := CStr(mem);
    ZeroEnds(mem);
    assert str[0..] == str;
    while mem[s] != 0
      invariant 0 <= s <= |str| < |mem|
      invariant out + EscapeAll(str[s..]) == [QUOTE] + EscapeAll(str)
      decreases |mem| - s
    {
      var c := mem[s];
      OneByte(mem, s);
      var piece: seq<byte>;
      if c == QUOTE { piece := [BACKSLASH, QUOTE]; }
      else if c == BACKSLASH { piece := [BACKSLASH, BACKSLASH]; }
      else if c == 0x0A { piece := [BACKSLASH, 0x6E]; }
      else if c == 0x0D { piece := [BACKSLASH, 0x72]; }
      else if c == 0x09 { piece := [BACKSLASH, 0x74]; }
      else if c < 0x20 { piece := [BACKSLASH, 0x75, 0x30, 0x30, Hex(c / 16), Hex(c % 16)]; }
      else { piece := [c]; }
      assert piece == EscapeByte(c);
      assert out + (piece + EscapeAll(str[s + 1..])) == out + piece + EscapeAll(str[s + 1..]);
      out := out + piece;
      s := s + 1;
    }
    AtEnd(mem, s);
    assert out + [] == out;
    out := out + [QUOTE];
  }

  lemma ZeroEnds(mem: seq<byte>)
    requires 0 in mem
    ensures |CStr(mem)| < |mem|
  {
    assert |CStr(mem)| == |mem| ==> CStr(mem) == mem;
  }

  lemma OneByte(mem: seq<byte>, s: nat)
    requires s <= |CStr(mem)| < |mem| && mem[s] != 0
    ensures s < |CStr(mem)|
    ensures EscapeAll(CStr(mem)[s..]) == EscapeByte(mem[s]) + EscapeAll(CStr(mem)[s + 1..])
  {
    hide EscapeByte;
    var str := CStr(mem);
    assert str[s..][1..] == str[s + 1..];
  }

  lemma AtEnd(mem: seq<byte>, s: nat)
    requires s <= |CStr(mem)| < |mem| && mem[s] == 0
    ensures EscapeAll(CStr(mem)[s..]) == []
  {
    var str := CStr(mem);
    assert forall i :: 0 <= i < |str| ==> str[i] in str && str[i] == mem[i];
    assert s == |str|;
  }

  // ---- the reader, from the RFC's grammar ----

  datatype Option<T> = None | Some(value: T)

  datatype Parsed = Parsed(text: seq<byte>, rest: seq<byte>)

  function HexValue(b: byte): Option<nat> {
    if 0x30 <= b <= 0x39 then Some(b - 0x30)
    else if 0x41 <= b <= 0x46 then Some(b - 0x41 + 10)
    else if 0x61 <= b <= 0x66 then Some(b - 0x61 + 10)
    else None
  }

  function FourHex(s: seq<byte>): Option<nat>
    requires |s| >= 4
  {
    match (HexValue(s[0]), HexValue(s[1]), HexValue(s[2]), HexValue(s[3]))
    case (Some(a), Some(b), Some(c), Some(d)) => Some(((a * 16 + b) * 16 + c) * 16 + d)
    case _ => None
  }

  /** UTF-8 for a code point of the basic plane; a surrogate half alone has none. */
  function Utf8(u: nat): Option<seq<byte>> {
    if u < 0x80 then Some([u])
    else if u < 0x800 then Some([0xC0 + u / 64, 0x80 + u % 64])
    else if 0xD800 <= u < 0xE000 || u >= 0x10000 then None
    else Some([0xE0 + u / 4096, 0x80 + u / 64 % 64, 0x80 + u % 64])
  }

  /** The eight one-letter escapes. */
  function Short(b: byte): Option<byte> {
    if b == QUOTE || b == BACKSLASH || b == 0x2F then Some(b)
    else if b == 0x62 then Some(0x08)
    else if b == 0x66 then Some(0x0C)
    else if b == 0x6E then Some(0x0A)
    else if b == 0x72 then Some(0x0D)
    else if b == 0x74 then Some(0x09)
    else None
  }

  function Prepend(b: seq<byte>, p: Option<Parsed>): Option<Parsed> {
    match p
    case None => None
    case Some(q) => Some(Parsed(b + q.text, q.rest))
  }

  /** The characters of a string up to its closing quote. */
  function Chars(s: seq<byte>): Option<Parsed>
    decreases |s|
  {
    if s == [] then None
    else if s[0] == QUOTE then Some(Parsed([], s[1..]))
    else if s[0] < 0x20 then None
    else if s[0] != BACKSLASH then Prepend([s[0]], Chars(s[1..]))
    else if |s| < 2 then None
    else if s[1] == 0x75 then
      if |s| < 6 then None
      else
        match FourHex(s[2..])
        case None => None
        case Some(u) => match Utf8(u) case None => None case Some(bytes) => Prepend(bytes, Chars(s[6..]))
    else
      match Short(s[1])
      case None => None
      case Some(b) => Prepend([b], Chars(s[2..]))
  }

  function ParseString(s: seq<byte>): Option<Parsed> {
    if s == [] || s[0] != QUOTE then None else Chars(s[1..])
  }

  lemma HexRoundTrip(d: nat)
    requires d < 16
    ensures HexValue(Hex(d)) == Some(d)
  {
  }

  /** One escaped byte is read back as that byte, whatever follows. */
  lemma EscapedByteReads(c: byte, rest: seq<byte>)
    ensures Chars(EscapeByte(c) + rest) == Prepend([c], Chars(rest))
  {
    var s := EscapeByte(c) + rest;
    if c < 0x20 && c != 0x0A && c != 0x0D && c != 0x09 {
      HexRoundTrip(c / 16);
      HexRoundTrip(c % 16);
      assert s[2..] == [0x30, 0x30, Hex(c / 16), Hex(c % 16)] + rest;
      assert FourHex(s[2..]) == Some(c);
      assert s[6..] == rest;
    } else if |EscapeByte(c)| == 2 {
      assert s[2..] == rest;
    } else {
      assert s[1..] == rest;
    }
  }

  lemma {:induction false} EscapedReads(s: seq<byte>, rest: seq<byte>)
    ensures Chars(EscapeAll(s) + [QUOTE] + rest) == Some(Parsed(s, rest))
  {
    hide EscapeByte;
    if s == [] {
      assert (EscapeAll(s) + [QUOTE] + rest)[1..] == rest;
    } else {
      EscapedReads(s[1..], rest);
      var tail := EscapeAll(s[1..]) + [QUOTE] + rest;
      EscapedByteReads(s[0], tail);
      assert EscapeAll(s) + [QUOTE] + rest == EscapeByte(s[0]) + tail;
      assert [s[0]] + s[1..] == s;
    }
  }

  /** A reader of section 7 that goes byte by byte gets back exactly the bytes that were escaped, and
      stops exactly at the closing quote: nothing inside can end the string early or swallow what follows. */
  lemma RoundTrip(s: seq<byte>, rest: seq<byte>)
    ensures ParseString(Escape(s) + rest) == Some(Parsed(s, rest))
  {
    hide EscapeAll, Chars;
    EscapedReads(s, rest);
    assert (Escape(s) + rest)[1..] == EscapeAll(s) + [QUOTE] + rest;
  }

  /** No control byte reaches the output, so an event stays on one line. */
  lemma NoControlBytes(s: seq<byte>)
    ensures forall b :: b in Escape(s) ==> b >= 0x20
  {
    NoControlInBody(s);
  }

  lemma {:induction false} NoControlInBody(s: seq<byte>)
    ensures forall b :: b in EscapeAll(s) ==> b >= 0x20
  {
    if s != [] {
      NoControlInBody(s[1..]);
      assert forall b :: b in EscapeByte(s[0]) ==> b >= 0x20;
    }
  }

  /** Which form each byte takes: two characters for the five named ones, six with lower-case digits for
      the other controls, itself for the rest. */
  lemma EscapeForms(c: byte)
    ensures |EscapeByte(c)| ==
            if c in [0x22, 0x5C, 0x0A, 0x0D, 0x09] then 2 else if c < 0x20 then 6 else 1
    ensures |EscapeByte(c)| == 6 ==> forall b :: b in EscapeByte(c) ==> !(0x41 <= b <= 0x46)
  {
  }
}
