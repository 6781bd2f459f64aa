/** Text materialisation of primitive arrays (src/main.rs:412-432): byte
    arrays are read as UTF-8, with the syntax of section 4 of RFC 3629; char
    arrays are read as UTF-16, decoded as in section 2.2 of RFC 2781. Dafny's
    `char` is a Unicode scalar value, so a `string` here holds exactly what a
    Rust `String` holds. */
module Text {
  import opened Wrappers
  import opened Hprof

  // ---------------------------------------------------------------------
  // UTF-8: the grammar of RFC 3629, section 4

  predicate Utf8Tail(b: Byte) { 0x80 <= b <= 0xBF }

  /** UTF8-1 .. UTF8-4, one disjunct per alternative of the RFC. */
  predicate Utf8Char1(s: seq<Byte>) { |s| == 1 && s[0] <= 0x7F }

  predicate Utf8Char2(s: seq<Byte>) { |s| == 2 && 0xC2 <= s[0] <= 0xDF && Utf8Tail(s[1]) }

  predicate Utf8Char3(s: seq<Byte>) {
    |s| == 3 && Utf8Tail(s[2]) &&
    ( (s[0] == 0xE0 && 0xA0 <= s[1] <= 0xBF)
    || (0xE1 <= s[0] <= 0xEC && Utf8Tail(s[1]))
    || (s[0] == 0xED && 0x80 <= s[1] <= 0x9F)
    || (0xEE <= s[0] <= 0xEF && Utf8Tail(s[1])))
  }

  predicate Utf8Char4(s: seq<Byte>) {
    |s| == 4 && Utf8Tail(s[2]) && Utf8Tail(s[3]) &&
    ( (s[0] == 0xF0 && 0x90 <= s[1] <= 0xBF)
    || (0xF1 <= s[0] <= 0xF3 && Utf8Tail(s[1]))
    || (s[0] == 0xF4 && 0x80 <= s[1] <= 0x8F))
  }

  /** UTF8-octets = *( UTF8-char ) */
  predicate ValidUtf8(bs: seq<Byte>)
    decreases |bs|
  {
    || bs == []
    || (|bs| >= 1 && Utf8Char1(bs[..1]) && ValidUtf8(bs[1..]))
    || (|bs| >= 2 && Utf8Char2(bs[..2]) && ValidUtf8(bs[2..]))
    || (|bs| >= 3 && Utf8Char3(bs[..3]) && ValidUtf8(bs[3..]))
    || (|bs| >= 4 && Utf8Char4(bs[..4]) && ValidUtf8(bs[4..]))
  }

  /** Encodes one scalar value as UTF-8 (section 3 of RFC 3629). */
  function EncodeUtf8Char(c: char): (s: seq<Byte>)
    ensures 1 <= |s| <= 4
  {
    var cp := c as int;
    if cp < 0x80 then [cp]
    else if cp < 0x800 then [0xC0 + cp / 0x40, 0x80 + cp % 0x40]
    else if cp < 0x1_0000 then [0xE0 + cp / 0x1000, 0x80 + cp / 0x40 % 0x40, 0x80 + cp % 0x40]
    else [0xF0 + cp / 0x4_0000, 0x80 + cp / 0x1000 % 0x40, 0x80 + cp / 0x40 % 0x40, 0x80 + cp % 0x40]
  }

  function EncodeUtf8(s: string): seq<Byte> {
    if s == [] then [] else EncodeUtf8Char(s[0]) + EncodeUtf8(s[1..])
  }

  /** The six payload bits of a continuation byte. */
  function Low6(b: Byte): int { b - 0x80 }

  /** Decodes the first UTF-8 character of `bs` and its length; `None` when
      the leading bytes are not a well-formed character. */
  function DecodeUtf8Char(bs: seq<Byte>): (r: Option<(char, nat)>)
    requires |bs| > 0
    ensures r.Some? ==> 1 <= r.value.1 <= |bs| && r.value.1 <= 4
  {
    var b0: int := bs[0];
    if b0 <= 0x7F then Some((b0 as char, 1))
    else if 0xC2 <= b0 <= 0xDF then
      if |bs| >= 2 && Utf8Tail(bs[1]) then
        Some((((b0 - 0xC0) * 0x40 + Low6(bs[1])) as char, 2))
      else None
    else if 0xE0 <= b0 <= 0xEF then
      var lo := if b0 == 0xE0 then 0xA0 else 0x80;
      var hi := if b0 == 0xED then 0x9F else 0xBF;
      if |bs| >= 3 && lo <= bs[1] <= hi && Utf8Tail(bs[2]) then
        Some((((b0 - 0xE0) * 0x1000 + Low6(bs[1]) * 0x40 + Low6(bs[2])) as char, 3))
      else None
    else if 0xF0 <= b0 <= 0xF4 then
      var lo := if b0 == 0xF0 then 0x90 else 0x80;
      var hi := if b0 == 0xF4 then 0x8F else 0xBF;
      if |bs| >= 4 && lo <= bs[1] <= hi && Utf8Tail(bs[2]) && Utf8Tail(bs[3]) then
        Some((((b0 - 0xF0) * 0x4_0000 + Low6(bs[1]) * 0x1000 + Low6(bs[2]) * 0x40 + Low6(bs[3])) as char, 4))
      else None
    else None
  }

  /** `String::from_utf8`: the decoded text, or `None` for ill-formed input. */
  function DecodeUtf8(bs: seq<Byte>): Option<string>
    decreases |bs|
  {
    if bs == [] then Some([])
    else match DecodeUtf8Char(bs)
      case None => None
      case Some((c, n)) =>
        match DecodeUtf8(bs[n..])
        case None => None
        case Some(rest) => Some([c] + rest)
  }

  lemma DecodeUtf8CharIsGrammar(bs: seq<Byte>)
    requires |bs| > 0
    ensures DecodeUtf8Char(bs).Some? ==> var n := DecodeUtf8Char(bs).value.1;
      (n == 1 && Utf8Char1(bs[..1])) || (n == 2 && Utf8Char2(bs[..2])) ||
      (n == 3 && Utf8Char3(bs[..3])) || (n == 4 && Utf8Char4(bs[..4]))
    ensures |bs| >= 1 && Utf8Char1(bs[..1]) ==> DecodeUtf8Char(bs).Some? && DecodeUtf8Char(bs).value.1 == 1
    ensures |bs| >= 2 && Utf8Char2(bs[..2]) ==> DecodeUtf8Char(bs).Some? && DecodeUtf8Char(bs).value.1 == 2
    ensures |bs| >= 3 && Utf8Char3(bs[..3]) ==> DecodeUtf8Char(bs).Some? && DecodeUtf8Char(bs).value.1 == 3
    ensures |bs| >= 4 && Utf8Char4(bs[..4]) ==> DecodeUtf8Char(bs).Some? && DecodeUtf8Char(bs).value.1 == 4
  {
  }

  /** The decoder accepts exactly the byte strings of the RFC 3629 grammar. */
  lemma {:induction false} DecodeUtf8Valid(bs: seq<Byte>)
    ensures DecodeUtf8(bs).Some? <==> ValidUtf8(bs)
    decreases |bs|
  {
    if bs != [] {
      DecodeUtf8CharIsGrammar(bs);
      if |bs| >= 1 { DecodeUtf8Valid(bs[1..]); }
      if |bs| >= 2 { DecodeUtf8Valid(bs[2..]); }
      if |bs| >= 3 { DecodeUtf8Valid(bs[3..]); }
      if |bs| >= 4 { DecodeUtf8Valid(bs[4..]); }
    }
  }

  // The positional split that UTF-8 performs on a scalar value, one lemma per
  // character length and direction so that each proof stays small.

  lemma Split2(x: int, y: int)
    requires x >= 0 && 0 <= y < 0x40
    ensures (x * 0x40 + y) / 0x40 == x && (x * 0x40 + y) % 0x40 == y
  {
  }

  lemma Split3(x: int, y: int, z: int)
    requires x >= 0 && 0 <= y < 0x40 && 0 <= z < 0x40
    ensures var cp := x * 0x1000 + y * 0x40 + z;
      cp / 0x1000 == x && cp / 0x40 % 0x40 == y && cp % 0x40 == z
  {
    var cp := x * 0x1000 + y * 0x40 + z;
    Split2(x * 0x40 + y, z);
    Split2(x, y);
    assert cp / 0x1000 == cp / 0x40 / 0x40;
  }

  lemma Split4(w: int, x: int, y: int, z: int)
    requires w >= 0 && 0 <= x < 0x40 && 0 <= y < 0x40 && 0 <= z < 0x40
    ensures var cp := w * 0x4_0000 + x * 0x1000 + y * 0x40 + z;
      cp / 0x4_0000 == w && cp / 0x1000 % 0x40 == x && cp / 0x40 % 0x40 == y && cp % 0x40 == z
  {
    var cp := w * 0x4_0000 + x * 0x1000 + y * 0x40 + z;
    Split2((w * 0x40 + x) * 0x40 + y, z);
    Split2(w * 0x40 + x, y);
    Split2(w, x);
    assert cp / 0x1000 == cp / 0x40 / 0x40;
    assert cp / 0x4_0000 == cp / 0x40 / 0x40 / 0x40;
  }

  lemma Join(cp: int)
    requires cp >= 0
    ensures cp == cp / 0x40 * 0x40 + cp % 0x40
    ensures cp == (cp / 0x1000) * 0x1000 + (cp / 0x40 % 0x40) * 0x40 + cp % 0x40
    ensures cp == (cp / 0x4_0000) * 0x4_0000 + (cp / 0x1000 % 0x40) * 0x1000 + (cp / 0x40 % 0x40) * 0x40 + cp % 0x40
  {
    assert cp / 0x1000 == cp / 0x40 / 0x40;
    assert cp / 0x4_0000 == cp / 0x1000 / 0x40;
  }

  lemma Encode2(x: int, y: int)
    requires 2 <= x < 0x20 && 0 <= y < 0x40
    ensures EncodeUtf8Char((x * 0x40 + y) as char) == [0xC0 + x, 0x80 + y]
  {
    Split2(x, y);
  }

  lemma Encode3(x: int, y: int, z: int)
    requires 0 <= x < 0x10 && 0 <= y < 0x40 && 0 <= z < 0x40
    requires x == 0 ==> y >= 0x20
    requires x == 0xD ==> y < 0x20
    ensures EncodeUtf8Char((x * 0x1000 + y * 0x40 + z) as char) == [0xE0 + x, 0x80 + y, 0x80 + z]
  {
    Split3(x, y, z);
  }

  lemma Encode4(w: int, x: int, y: int, z: int)
    requires 0 <= w < 5 && 0 <= x < 0x40 && 0 <= y < 0x40 && 0 <= z < 0x40
    requires w == 0 ==> x >= 0x10
    requires w == 4 ==> x < 0x10
    ensures EncodeUtf8Char((w * 0x4_0000 + x * 0x1000 + y * 0x40 + z) as char) == [0xF0 + w, 0x80 + x, 0x80 + y, 0x80 + z]
  {
    Split4(w, x, y, z);
  }

  /** Decoding one character and encoding it again gives back its bytes. */
  lemma DecodeUtf8CharThenEncode(bs: seq<Byte>)
    requires |bs| > 0 && DecodeUtf8Char(bs).Some?
    ensures EncodeUtf8Char(DecodeUtf8Char(bs).value.0) == bs[..DecodeUtf8Char(bs).value.1]
  {
    var b0 := bs[0];
    if b0 <= 0x7F {
    } else if b0 <= 0xDF {
      Encode2(b0 - 0xC0, Low6(bs[1]));
    } else if b0 <= 0xEF {
      Encode3(b0 - 0xE0, Low6(bs[1]), Low6(bs[2]));
    } else {
      Encode4(b0 - 0xF0, Low6(bs[1]), Low6(bs[2]), Low6(bs[3]));
    }
  }

  // Decoding the bytes of one encoded character, one lemma per length.

  lemma Decode2(x: int, y: int, rest: seq<Byte>)
    requires 2 <= x < 0x20 && 0 <= y < 0x40
    ensures DecodeUtf8Char([0xC0 + x, 0x80 + y] + rest) == Some(((x * 0x40 + y) as char, 2))
  {
  }

  lemma Decode3(x: int, y: int, z: int, rest: seq<Byte>)
    requires 0 <= x < 0x10 && 0 <= y < 0x40 && 0 <= z < 0x40
    requires x == 0 ==> y >= 0x20
    requires x == 0xD ==> y < 0x20
    ensures DecodeUtf8Char([0xE0 + x, 0x80 + y, 0x80 + z] + rest) == Some(((x * 0x1000 + y * 0x40 + z) as char, 3))
  {
  }

  lemma Decode4(w: int, x: int, y: int, z: int, rest: seq<Byte>)
    requires 0 <= w < 5 && 0 <= x < 0x40 && 0 <= y < 0x40 && 0 <= z < 0x40
    requires w == 0 ==> x >= 0x10
    requires w == 4 ==> x < 0x10
    ensures DecodeUtf8Char([0xF0 + w, 0x80 + x, 0x80 + y, 0x80 + z] + rest) ==
      Some(((w * 0x4_0000 + x * 0x1000 + y * 0x40 + z) as char, 4))
  {
  }

  lemma EncodeUtf8Char2ThenDecode(c: char, rest: seq<Byte>)
    requires 0x80 <= c as int < 0x800
    ensures DecodeUtf8Char(EncodeUtf8Char(c) + rest) == Some((c, 2))
  {
    var cp := c as int;
    Join(cp);
    Decode2(cp / 0x40, cp % 0x40, rest);
  }

  lemma EncodeUtf8Char3ThenDecode(c: char, rest: seq<Byte>)
    requires 0x800 <= c as int < 0x1_0000
    ensures DecodeUtf8Char(EncodeUtf8Char(c) + rest) == Some((c, 3))
  {
    var cp := c as int;
    Join(cp);
    Decode3(cp / 0x1000, cp / 0x40 % 0x40, cp % 0x40, rest);
  }

  lemma EncodeUtf8Char4ThenDecode(c: char, rest: seq<Byte>)
    requires 0x1_0000 <= c as int
    ensures DecodeUtf8Char(EncodeUtf8Char(c) + rest) == Some((c, 4))
  {
    var cp := c as int;
    Join(cp);
    Decode4(cp / 0x4_0000, cp / 0x1000 % 0x40, cp / 0x40 % 0x40, cp % 0x40, rest);
  }

  /** Encoding one character and decoding the result gives the character back,
      whatever follows it. */
  lemma EncodeUtf8CharThenDecode(c: char, rest: seq<Byte>)
    ensures DecodeUtf8Char(EncodeUtf8Char(c) + rest) == Some((c, |EncodeUtf8Char(c)|))
  {
    var cp := c as int;
    if cp < 0x80 {
    } else if cp < 0x800 {
      EncodeUtf8Char2ThenDecode(c, rest);
    } else if cp < 0x1_0000 {
      EncodeUtf8Char3ThenDecode(c, rest);
    } else {
      EncodeUtf8Char4ThenDecode(c, rest);
    }
  }

  /** The text decoded from a non-empty byte string is its first character
      followed by the text of the remaining bytes. */
  lemma DecodeUtf8Cons(bs: seq<Byte>)
    requires bs != [] && DecodeUtf8(bs).Some?
    ensures DecodeUtf8Char(bs).Some?
    ensures var n := DecodeUtf8Char(bs).value.1;
      DecodeUtf8(bs[n..]).Some? &&
      DecodeUtf8(bs).value == [DecodeUtf8Char(bs).value.0] + DecodeUtf8(bs[n..]).value
  {
  }

  lemma EncodeUtf8Cons(c: char, s: string)
    ensures EncodeUtf8([c] + s) == EncodeUtf8Char(c) + EncodeUtf8(s)
  {
    assert ([c] + s)[1..] == s;
  }

  /** Decoding a byte string and encoding the text again gives back the same
      bytes: the text `String::from_utf8` returns holds exactly its input. */
  lemma {:induction false} DecodeUtf8ThenEncode(bs: seq<Byte>)
    requires DecodeUtf8(bs).Some?
    ensures EncodeUtf8(DecodeUtf8(bs).value) == bs
    decreases |bs|
  {
    if bs != [] {
      DecodeUtf8Cons(bs);
      var (c, n) := DecodeUtf8Char(bs).value;
      DecodeUtf8CharThenEncode(bs);
      DecodeUtf8ThenEncode(bs[n..]);
      EncodeUtf8Cons(c, DecodeUtf8(bs[n..]).value);
      assert bs == bs[..n] + bs[n..];
    }
  }

  /** Every text is decodable from its own UTF-8 encoding. */
  lemma {:induction false} EncodeUtf8ThenDecode(s: string)
    ensures DecodeUtf8(EncodeUtf8(s)) == Some(s)
  {
    if s != [] {
      var head := EncodeUtf8Char(s[0]);
      EncodeUtf8CharThenDecode(s[0], EncodeUtf8(s[1..]));
      EncodeUtf8ThenDecode(s[1..]);
      assert (head + EncodeUtf8(s[1..]))[|head|..] == EncodeUtf8(s[1..]);
      assert [s[0]] + s[1..] == s;
    }
  }

  // ---------------------------------------------------------------------
  // UTF-16: RFC 2781, sections 2.1 (encoding) and 2.2 (decoding)

  predicate HighSurrogate(u: U16) { 0xD800 <= u <= 0xDBFF }
  predicate LowSurrogate(u: U16) { 0xDC00 <= u <= 0xDFFF }

  /** A sequence of code units in which every high surrogate is immediately
      followed by a low one and every low surrogate immediately follows a high
      one. */
  predicate ValidUtf16(us: seq<U16>)
    decreases |us|
  {
    || us == []
    || (!HighSurrogate(us[0]) && !LowSurrogate(us[0]) && ValidUtf16(us[1..]))
    || (|us| >= 2 && HighSurrogate(us[0]) && LowSurrogate(us[1]) && ValidUtf16(us[2..]))
  }

  /** Section 2.1: a scalar value below 0x10000 is one unit; above, the value
      minus 0x10000 is split into two ten-bit halves. */
  function EncodeUtf16Char(c: char): (us: seq<U16>)
    ensures 1 <= |us| <= 2
  {
    var cp := c as int;
    if cp < 0x1_0000 then [cp]
    else [0xD800 + (cp - 0x1_0000) / 0x400, 0xDC00 + (cp - 0x1_0000) % 0x400]
  }

  function EncodeUtf16(s: string): seq<U16> {
    if s == [] then [] else EncodeUtf16Char(s[0]) + EncodeUtf16(s[1..])
  }

  /** Section 2.2 for the first character of `us`; `None` for an unpaired
      surrogate. */
  function DecodeUtf16Char(us: seq<U16>): (r: Option<(char, nat)>)
    requires |us| > 0
    ensures r.Some? ==> 1 <= r.value.1 <= |us| && r.value.1 <= 2
  {
    var w1: int := us[0];
    if w1 < 0xD800 || w1 > 0xDFFF then Some((w1 as char, 1))
    else if w1 <= 0xDBFF && |us| >= 2 && LowSurrogate(us[1]) then
      Some(((0x1_0000 + (w1 - 0xD800) * 0x400 + (us[1] - 0xDC00)) as char, 2))
    else None
  }

  /** `String::from_utf16`: the decoded text, or `None` when a surrogate is
      unpaired. */
  function DecodeUtf16(us: seq<U16>): Option<string>
    decreases |us|
  {
    if us == [] then Some([])
    else match DecodeUtf16Char(us)
      case None => None
      case Some((c, n)) =>
        match DecodeUtf16(us[n..])
        case None => None
        case Some(rest) => Some([c] + rest)
  }

  /** The decoder accepts exactly the well-paired unit sequences. */
  lemma {:induction false} DecodeUtf16Valid(us: seq<U16>)
    ensures DecodeUtf16(us).Some? <==> ValidUtf16(us)
    decreases |us|
  {
    if us != [] {
      DecodeUtf16Valid(us[1..]);
      if |us| >= 2 { DecodeUtf16Valid(us[2..]); }
    }
  }

  lemma DecodeUtf16CharThenEncode(us: seq<U16>)
    requires |us| > 0 && DecodeUtf16Char(us).Some?
    ensures EncodeUtf16Char(DecodeUtf16Char(us).value.0) == us[..DecodeUtf16Char(us).value.1]
  {
    if HighSurrogate(us[0]) {
      var hi: int, lo: int := us[0] - 0xD800, us[1] - 0xDC00;
      assert (hi * 0x400 + lo) / 0x400 == hi && (hi * 0x400 + lo) % 0x400 == lo;
    }
  }

  lemma EncodeUtf16CharThenDecode(c: char, rest: seq<U16>)
    ensures DecodeUtf16Char(EncodeUtf16Char(c) + rest) == Some((c, |EncodeUtf16Char(c)|))
  {
    var cp := c as int;
    if cp >= 0x1_0000 {
      var v := cp - 0x1_0000;
      assert v == v / 0x400 * 0x400 + v % 0x400;
    }
  }

  /** The text decoded from non-empty code units is its first character
      followed by the text of the remaining units. */
  lemma DecodeUtf16Cons(us: seq<U16>)
    requires us != [] && DecodeUtf16(us).Some?
    ensures DecodeUtf16Char(us).Some?
    ensures var n := DecodeUtf16Char(us).value.1;
      DecodeUtf16(us[n..]).Some? &&
      DecodeUtf16(us).value == [DecodeUtf16Char(us).value.0] + DecodeUtf16(us[n..]).value
  {
  }

  lemma EncodeUtf16Cons(c: char, s: string)
    ensures EncodeUtf16([c] + s) == EncodeUtf16Char(c) + EncodeUtf16(s)
  {
    assert ([c] + s)[1..] == s;
  }

  /** Decoding code units and encoding the text again gives back the units. */
  lemma {:induction false} DecodeUtf16ThenEncode(us: seq<U16>)
    requires DecodeUtf16(us).Some?
    ensures EncodeUtf16(DecodeUtf16(us).value) == us
    decreases |us|
  {
    if us != [] {
      DecodeUtf16Cons(us);
      var (c, n) := DecodeUtf16Char(us).value;
      DecodeUtf16CharThenEncode(us);
      DecodeUtf16ThenEncode(us[n..]);
      EncodeUtf16Cons(c, DecodeUtf16(us[n..]).value);
      assert us == us[..n] + us[n..];
    }
  }

  /** Every text is decodable from its own UTF-16 encoding. */
  lemma {:induction false} EncodeUtf16ThenDecode(s: string)
    ensures DecodeUtf16(EncodeUtf16(s)) == Some(s)
  {
    if s != [] {
      var head := EncodeUtf16Char(s[0]);
      EncodeUtf16CharThenDecode(s[0], EncodeUtf16(s[1..]));
      EncodeUtf16ThenDecode(s[1..]);
      assert (head + EncodeUtf16(s[1..]))[|head|..] == EncodeUtf16(s[1..]);
      assert [s[0]] + s[1..] == s;
    }
  }

  // ---------------------------------------------------------------------
  // primitive_array_text

  datatype TextError = InvalidUtf16

  /** The optional text stored with a primitive array (src/main.rs:412-432):
      byte arrays that are valid UTF-8 give their text and invalid ones no
      text; char arrays that are valid UTF-16 give their text and invalid
      ones abort the conversion; other element types have no text. */
  function PrimitiveArrayText(elements: PrimitiveElements): (r: Result<Option<string>, TextError>)
    ensures elements.ByteElements? ==>
      && r.Ok?
      && (r.value.Some? <==> ValidUtf8(elements.bytes))
      && (r.value.Some? ==> EncodeUtf8(r.value.value) == elements.bytes)
    ensures elements.CharElements? ==>
      && (r.Ok? <==> ValidUtf16(elements.units))
      && (r.Ok? ==> r.value.Some? && EncodeUtf16(r.value.value) == elements.units)
    ensures !elements.ByteElements? && !elements.CharElements? ==> r == Ok(None)
  {
    match elements
    case ByteElements(bytes) =>
      DecodeUtf8Valid(bytes);
      if DecodeUtf8(bytes).Some? then
        DecodeUtf8ThenEncode(bytes);
        Ok(Some(DecodeUtf8(bytes).value))
      else Ok(None)
    case CharElements(units) =>
      DecodeUtf16Valid(units);
      if DecodeUtf16(units).Some? then
        DecodeUtf16ThenEncode(units);
        Ok(Some(DecodeUtf16(units).value))
      else Err(InvalidUtf16)
    case _ => Ok(None)
  }
}
