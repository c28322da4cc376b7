/** `encodeURIComponent` as ECMAScript defines it: every character outside the
    unreserved set is written as the UTF-8 bytes of its code point, each byte
    as a percent triplet `%XY` with upper-case hexadecimal digits (section 2.1
    of RFC 3986). `Decode` is the matching `decodeURIComponent`; the two are
    related by `DecodeEncode`. */
module UriComponent {
  import opened Wrappers
  import opened SeqFacts

  type Byte = b: int | 0 <= b < 256

  /** The characters `encodeURIComponent` leaves as they are. */
  predicate IsUnreserved(c: char)
  {
    || ('A' <= c <= 'Z') || ('a' <= c <= 'z') || ('0' <= c <= '9')
    || c == '-' || c == '_' || c == '.' || c == '!' || c == '~'
    || c == '*' || c == '\'' || c == '(' || c == ')'
  }

  /** A character that may appear in an encoded component. */
  predicate IsEncodedChar(c: char)
  {
    IsUnreserved(c) || c == '%'
  }

  /** The upper-case hexadecimal digit for `n`. */
  function HexDigit(n: int): (c: char)
    requires 0 <= n < 16
    ensures IsUnreserved(c)
  {
    if n < 10 then ('0' as int + n) as char else ('A' as int + n - 10) as char
  }

  /** The value of one hexadecimal digit, of either case. */
  function HexValue(c: char): (r: Option<int>)
    ensures r.Some? ==> 0 <= r.value < 16
  {
    if '0' <= c <= '9' then Some(c as int - '0' as int)
    else if 'A' <= c <= 'F' then Some(c as int - 'A' as int + 10)
    else if 'a' <= c <= 'f' then Some(c as int - 'a' as int + 10)
    else None
  }

  /** One byte as a percent triplet. */
  function PercentByte(b: Byte): (r: string)
    ensures |r| == 3 && r[0] == '%' && IsUnreserved(r[1]) && IsUnreserved(r[2])
  {
    ['%', HexDigit(b / 16), HexDigit(b % 16)]
  }

  /** The byte written by a percent triplet at the start of `s`, if there is one. */
  function ReadByte(s: string): (r: Option<Byte>)
    ensures r.Some? ==> |s| >= 3 && s[0] == '%'
  {
    if |s| >= 3 && s[0] == '%' then
      var hi, lo := HexValue(s[1]), HexValue(s[2]);
      if hi.Some? && lo.Some? then Some(16 * hi.value + lo.value) else None
    else None
  }

  /** A percent triplet reads back as the byte it was written from. */
  lemma ReadPercentByte(b: Byte, t: string)
    ensures ReadByte(PercentByte(b) + t) == Some(b)
  {
    var s := PercentByte(b) + t;
    assert s[1] == HexDigit(b / 16) && s[2] == HexDigit(b % 16);
  }

  /** The UTF-8 encoding of a code point: one byte below U+0080, then two,
      three or four bytes, a lead byte followed by 10xxxxxx continuations. */
  function Utf8(c: char): (bs: seq<Byte>)
    ensures 1 <= |bs| <= 4
    ensures |bs| == 1 <==> c as int < 0x80
  {
    var u := c as int;
    if u < 0x80 then [u]
    else if u < 0x800 then [0xC0 + u / 64, 0x80 + u % 64]
    else if u < 0x10000 then [0xE0 + u / 4096, 0x80 + (u / 64) % 64, 0x80 + u % 64]
    else [0xF0 + u / 262144, 0x80 + (u / 4096) % 64, 0x80 + (u / 64) % 64, 0x80 + u % 64]
  }

  function PercentBytes(bs: seq<Byte>): (r: string)
    ensures |r| == 3 * |bs|
  {
    if bs == [] then [] else PercentByte(bs[0]) + PercentBytes(bs[1..])
  }

  /** The encoding of one character: itself if unreserved, else its UTF-8
      bytes as percent triplets. */
  function EncodeChar(c: char): (r: string)
    ensures 1 <= |r|
    ensures IsUnreserved(c) <==> r == [c]
  {
    if IsUnreserved(c) then [c] else PercentBytes(Utf8(c))
  }

  /** `encodeURIComponent(s)`. */
  function Encode(s: string): (r: string)
    ensures |s| <= |r|
  {
    if s == [] then [] else EncodeChar(s[0]) + Encode(s[1..])
  }

  predicate AllEncodedChars(s: string)
  {
    forall i :: 0 <= i < |s| ==> IsEncodedChar(s[i])
  }

  lemma {:induction false} PercentBytesEncoded(bs: seq<Byte>)
    ensures AllEncodedChars(PercentBytes(bs))
  {
    if bs != [] {
      PercentBytesEncoded(bs[1..]);
    }
  }

  /** Only unreserved characters and `%` remain after encoding, so the result
      never holds a `&`, `=`, `?` or `#` of its own. */
  lemma {:induction false} EncodeIsEncoded(s: string)
    ensures AllEncodedChars(Encode(s))
  {
    if s != [] {
      if !IsUnreserved(s[0]) {
        PercentBytesEncoded(Utf8(s[0]));
      }
      EncodeIsEncoded(s[1..]);
    }
  }

  /** Text made only of unreserved characters is left as it is. */
  lemma {:induction false} EncodeUnreserved(s: string)
    requires forall i :: 0 <= i < |s| ==> IsUnreserved(s[i])
    ensures Encode(s) == s
  {
    if s != [] {
      EncodeUnreserved(s[1..]);
    }
  }

  /** A continuation byte 10xxxxxx at the start of `s`, as its six payload bits. */
  function ReadCont(s: string): (r: Option<int>)
    ensures r.Some? ==> |s| >= 3 && 0 <= r.value < 64
  {
    var b := ReadByte(s);
    if b.Some? && 0x80 <= b.value < 0xC0 then Some(b.value - 0x80) else None
  }

  /** The first character of a non-empty encoded text and how many characters
      of it that character took; `None` for a malformed escape, an overlong or
      truncated UTF-8 sequence, or a surrogate code point. */
  function DecodeChar(s: string): (r: Option<(char, nat)>)
    requires s != []
    ensures r.Some? ==> 1 <= r.value.1 <= |s|
  {
    if s[0] != '%' then Some((s[0], 1))
    else
      var b0 := ReadByte(s);
      if b0.None? then None
      else if b0.value < 0x80 then Some((b0.value as char, 3))
      else if 0xC2 <= b0.value < 0xE0 then
        var x1 := ReadCont(s[3..]);
        if x1.None? then None
        else Some((((b0.value - 0xC0) * 64 + x1.value) as char, 6))
      else if 0xE0 <= b0.value < 0xF0 then
        var x1 := ReadCont(s[3..]);
        if x1.None? then None
        else
          var x2 := ReadCont(s[6..]);
          if x2.None? then None
          else
            var u := (b0.value - 0xE0) * 4096 + x1.value * 64 + x2.value;
            if 0x800 <= u && !(0xD800 <= u < 0xE000) then Some((u as char, 9)) else None
      else if 0xF0 <= b0.value < 0xF5 then
        var x1 := ReadCont(s[3..]);
        if x1.None? then None
        else
          var x2 := ReadCont(s[6..]);
          if x2.None? then None
          else
            var x3 := ReadCont(s[9..]);
            if x3.None? then None
            else
              var u := (b0.value - 0xF0) * 262144 + x1.value * 4096 + x2.value * 64 + x3.value;
              if 0x10000 <= u < 0x110000 then Some((u as char, 12)) else None
      else None
  }

  /** `decodeURIComponent(s)`, or `None` where it would throw a URIError. */
  function Decode(s: string): (r: Option<string>)
    decreases |s|
  {
    if s == [] then Some([])
    else
      var first := DecodeChar(s);
      if first.None? then None
      else
        var rest := Decode(s[first.value.1..]);
        if rest.None? then None else Some([first.value.0] + rest.value)
  }

  /** Peeling the first triplet off an encoded byte sequence followed by `t`. */
  lemma PercentBytesFirst(bs: seq<Byte>, t: string)
    requires bs != []
    ensures ReadByte(PercentBytes(bs) + t) == Some(bs[0])
    ensures (PercentBytes(bs) + t)[3..] == PercentBytes(bs[1..]) + t
  {
    var p, q := PercentByte(bs[0]), PercentBytes(bs[1..]);
    assert PercentBytes(bs) == p + q;
    AppendAssoc(p, q, t);
    DropPrefix(p, q + t);
    ReadPercentByte(bs[0], q + t);
  }

  /** The bit arithmetic that reassembles a three-byte code point. */
  lemma ThreeByteValue(u: int, y0: int, y1: int, y2: int)
    requires 0 <= u && y0 == u / 4096 && y1 == (u / 64) % 64 && y2 == u % 64
    ensures y0 * 4096 + y1 * 64 + y2 == u
  {
    assert u / 64 / 64 == u / 4096;
  }

  /** The bit arithmetic that reassembles a four-byte code point. */
  lemma FourByteValue(u: int, y0: int, y1: int, y2: int, y3: int)
    requires 0 <= u && y0 == u / 262144 && y1 == (u / 4096) % 64
    requires y2 == (u / 64) % 64 && y3 == u % 64
    ensures y0 * 262144 + y1 * 4096 + y2 * 64 + y3 == u
  {
    assert u / 4096 / 64 == u / 262144;
    ThreeByteValue(u, u / 4096, y2, y3);
  }

  /** The two-byte form: a lead byte with the top five bits, one continuation. */
  lemma DecodeTwoBytes(c: char, t: string)
    requires 0x80 <= c as int < 0x800
    ensures DecodeChar(PercentBytes(Utf8(c)) + t) == Some((c, 6))
  {
    var u := c as int;
    var bs := Utf8(c);
    var s := PercentBytes(bs) + t;
    PercentBytesFirst(bs, t);
    PercentBytesFirst(bs[1..], t);
    assert ReadCont(s[3..]) == Some(u % 64);
    assert (bs[0] - 0xC0) * 64 + u % 64 == u;
  }

  /** The three-byte form: a lead byte with the top four bits, two continuations. */
  lemma DecodeThreeBytes(c: char, t: string)
    requires 0x800 <= c as int < 0x10000
    ensures DecodeChar(PercentBytes(Utf8(c)) + t) == Some((c, 9))
  {
    var u := c as int;
    var bs := Utf8(c);
    var s := PercentBytes(bs) + t;
    var x1, x2 := (u / 64) % 64, u % 64;
    assert bs == [0xE0 + u / 4096, 0x80 + x1, 0x80 + x2];
    assert |s| >= 9 && ReadByte(s) == Some(bs[0]) && ReadCont(s[3..]) == Some(x1)
      && ReadCont(s[6..]) == Some(x2) by {
      ReadThreeTriplets(bs, t);
    }
    ThreeByteValue(u, bs[0] - 0xE0, x1, x2);
    DecodeCharThree(s, bs[0], x1, x2);
  }

  /** `DecodeChar` on a well-formed three-byte escape. */
  lemma DecodeCharThree(s: string, b0: int, x1: int, x2: int)
    requires s != [] && 0xE0 <= b0 < 0xF0
    requires ReadByte(s) == Some(b0)
    requires |s| >= 6 && ReadCont(s[3..]) == Some(x1) && ReadCont(s[6..]) == Some(x2)
    requires var u := (b0 - 0xE0) * 4096 + x1 * 64 + x2; 0x800 <= u && !(0xD800 <= u < 0xE000)
    ensures DecodeChar(s) == Some((((b0 - 0xE0) * 4096 + x1 * 64 + x2) as char, 9))
  {
  }

  /** `DecodeChar` on a well-formed four-byte escape. */
  lemma DecodeCharFour(s: string, b0: int, x1: int, x2: int, x3: int)
    requires s != [] && 0xF0 <= b0 < 0xF5
    requires ReadByte(s) == Some(b0)
    requires |s| >= 9 && ReadCont(s[3..]) == Some(x1) && ReadCont(s[6..]) == Some(x2) && ReadCont(s[9..]) == Some(x3)
    requires 0x10000 <= (b0 - 0xF0) * 262144 + x1 * 4096 + x2 * 64 + x3 < 0x110000
    ensures DecodeChar(s) == Some((((b0 - 0xF0) * 262144 + x1 * 4096 + x2 * 64 + x3) as char, 12))
  {
  }

  /** The three triplets of a three-byte sequence, read one after the other. */
  lemma ReadThreeTriplets(bs: seq<Byte>, t: string)
    requires |bs| == 3
    ensures var s := PercentBytes(bs) + t;
      && |s| >= 9
      && ReadByte(s) == Some(bs[0]) && ReadByte(s[3..]) == Some(bs[1])
      && ReadByte(s[6..]) == Some(bs[2])
  {
    var s := PercentBytes(bs) + t;
    PercentBytesFirst(bs, t);
    PercentBytesFirst(bs[1..], t);
    PercentBytesFirst(bs[2..], t);
    assert bs[1..][1..] == bs[2..];
    assert s[3..][3..] == s[6..];
  }

  /** The four triplets of a four-byte sequence, read one after the other. */
  lemma ReadFourTriplets(bs: seq<Byte>, t: string)
    requires |bs| == 4
    ensures var s := PercentBytes(bs) + t;
      && |s| >= 12
      && ReadByte(s) == Some(bs[0]) && ReadByte(s[3..]) == Some(bs[1])
      && ReadByte(s[6..]) == Some(bs[2]) && ReadByte(s[9..]) == Some(bs[3])
  {
    var s := PercentBytes(bs) + t;
    PercentBytesFirst(bs, t);
    PercentBytesFirst(bs[1..], t);
    PercentBytesFirst(bs[2..], t);
    PercentBytesFirst(bs[3..], t);
    assert bs[1..][1..] == bs[2..] && bs[2..][1..] == bs[3..];
    assert s[3..][3..] == s[6..] && s[6..][3..] == s[9..];
  }

  /** The four-byte form: a lead byte with the top three bits, three continuations. */
  lemma DecodeFourBytes(c: char, t: string)
    requires 0x10000 <= c as int
    ensures DecodeChar(PercentBytes(Utf8(c)) + t) == Some((c, 12))
  {
    var u := c as int;
    var bs := Utf8(c);
    var s := PercentBytes(bs) + t;
    var x1, x2, x3 := (u / 4096) % 64, (u / 64) % 64, u % 64;
    assert bs == [0xF0 + u / 262144, 0x80 + x1, 0x80 + x2, 0x80 + x3];
    assert |s| >= 12 && ReadByte(s) == Some(bs[0]) && ReadCont(s[3..]) == Some(x1)
      && ReadCont(s[6..]) == Some(x2) && ReadCont(s[9..]) == Some(x3) by {
      ReadFourTriplets(bs, t);
    }
    FourByteValue(u, bs[0] - 0xF0, x1, x2, x3);
    DecodeCharFour(s, bs[0], x1, x2, x3);
  }

  /** Decoding the encoding of `c`, whatever follows it, yields `c` and the
      length of its encoding. */
  lemma DecodeEncodeChar(c: char, t: string)
    ensures DecodeChar(EncodeChar(c) + t) == Some((c, |EncodeChar(c)|))
  {
    if !IsUnreserved(c) {
      var u := c as int;
      if u < 0x80 {
        PercentBytesFirst(Utf8(c), t);
      } else if u < 0x800 {
        DecodeTwoBytes(c, t);
      } else if u < 0x10000 {
        DecodeThreeBytes(c, t);
      } else {
        DecodeFourBytes(c, t);
      }
    }
  }

  /** `decodeURIComponent` undoes `encodeURIComponent`. */
  lemma {:induction false} DecodeEncode(s: string)
    ensures Decode(Encode(s)) == Some(s)
  {
    if s != [] {
      var head := EncodeChar(s[0]);
      var e := Encode(s);
      assert e == head + Encode(s[1..]);
      DecodeEncodeChar(s[0], Encode(s[1..]));
      assert e[|head|..] == Encode(s[1..]);
      DecodeEncode(s[1..]);
      assert [s[0]] + s[1..] == s;
    }
  }
}
