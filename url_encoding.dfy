/**
 The percent-encoder that prepares the text of a notification message for a
 query string. The message is a sequence of bytes; an ASCII letter or digit is
 copied as it is, and every other byte becomes '%' followed by two uppercase
 hexadecimal digits (high nibble first), the form of section 2.1 of RFC 3986. This is
 stricter than section 2.3 of RFC 3986, which says the unreserved marks '-', '.', '_'
 and '~' should not be encoded: here they are escaped too.
 */
module UrlEncoding {

  datatype Option<T> = None | Some(value: T)

  const Percent: bv8 := 0x25    // '%'
  const Digit0: bv8 := 0x30     // '0'
  const UpperA: bv8 := 0x41     // 'A'

  /** ASCII [0-9A-Za-z], what isalnum accepts in the "C" locale. */
  predicate IsAlnum(b: bv8) {
    (0x30 <= b <= 0x39) || (0x41 <= b <= 0x5A) || (0x61 <= b <= 0x7A)
  }

  /** The digits the encoder emits: 0-9 and uppercase A-F. */
  predicate IsHexDigit(d: bv8) {
    (0x30 <= d <= 0x39) || (0x41 <= d <= 0x46)
  }

  /** The value of one hex digit; the inverse of HexDigit. */
  function HexValue(d: bv8): (v: bv8)
    requires IsHexDigit(d)
    ensures v < 16
  {
    if d <= 0x39 then d - Digit0 else d - UpperA + 10
  }

  /** The digit of a nibble: '0' + v, or 'A' + (v - 10) above nine. */
  function HexDigit(v: bv8): (d: bv8)
    requires v < 16
    ensures IsHexDigit(d) && HexValue(d) == v
    ensures v <= 9 <==> d <= 0x39
  {
    if v > 9 then v - 10 + UpperA else v + Digit0
  }

  /** The encoding of one byte. */
  function EncodeByte(b: bv8): (r: seq<bv8>)
    ensures IsAlnum(b) ==> r == [b]
    ensures !IsAlnum(b) ==> |r| == 3 && r[0] == Percent && IsHexDigit(r[1]) && IsHexDigit(r[2])
                            && (HexValue(r[1]) << 4) | HexValue(r[2]) == b
  {
    if IsAlnum(b) then [b] else [Percent, HexDigit((b >> 4) & 0xF), HexDigit(b & 0xF)]
  }

  /** The encoding of a whole message, byte by byte; what urlencode returns. */
  function Encoded(s: seq<bv8>): (r: seq<bv8>)
    ensures forall i :: 0 <= i < |r| ==> IsAlnum(r[i]) || r[i] == Percent
  {
    if s == [] then [] else EncodeByte(s[0]) + Encoded(s[1..])
  }

  function AlnumCount(s: seq<bv8>): nat {
    if s == [] then 0 else (if IsAlnum(s[0]) then 1 else 0) + AlnumCount(s[1..])
  }

  /**
   Turns '%XY' back into the byte 0xXY and keeps letters and digits; anything
   else (a lone '%', a lowercase or non-hex digit, a punctuation byte) is not
   something Encoded produces, and yields None.
   */
  function Decode(e: seq<bv8>): Option<seq<bv8>>
    decreases |e|
  {
    if e == [] then Some([])
    else if IsAlnum(e[0]) then
      match Decode(e[1..])
      case Some(rest) => Some([e[0]] + rest)
      case None => None
    else if e[0] == Percent && |e| >= 3 && IsHexDigit(e[1]) && IsHexDigit(e[2]) then
      match Decode(e[3..])
      case Some(rest) => Some([(HexValue(e[1]) << 4) | HexValue(e[2])] + rest)
      case None => None
    else None
  }

  /** A message of letters and digits only goes out unchanged. */
  lemma {:induction false} EncodedAlnumIsIdentity(s: seq<bv8>)
    requires forall i :: 0 <= i < |s| ==> IsAlnum(s[i])
    ensures Encoded(s) == s
  {
    if s != [] {
      EncodedAlnumIsIdentity(s[1..]);
    }
  }

  /** Output length: one byte per letter or digit, three per other byte. */
  lemma {:induction false} EncodedLength(s: seq<bv8>)
    ensures AlnumCount(s) <= |s|
    ensures |Encoded(s)| == AlnumCount(s) + 3 * (|s| - AlnumCount(s))
  {
    if s != [] {
      EncodedLength(s[1..]);
    }
  }

  /** The encoding works character by character. */
  lemma {:induction false} EncodedAppend(a: seq<bv8>, b: seq<bv8>)
    ensures Encoded(a + b) == Encoded(a) + Encoded(b)
  {
    if a == [] {
      assert a + b == b;
    } else {
      assert (a + b)[0] == a[0];
      assert (a + b)[1..] == a[1..] + b;
      EncodedAppend(a[1..], b);
    }
  }

  /** Decoding an encoded message recovers it exactly. */
  lemma {:induction false} DecodeEncoded(s: seq<bv8>)
    ensures Decode(Encoded(s)) == Some(s)
  {
    if s != [] {
      var head, e := EncodeByte(s[0]), Encoded(s);
      assert e == head + Encoded(s[1..]);
      DecodeEncoded(s[1..]);
      if IsAlnum(s[0]) {
        assert e[0] == s[0] && e[1..] == Encoded(s[1..]);
      } else {
        assert e[0] == Percent && e[1] == head[1] && e[2] == head[2];
        assert e[3..] == Encoded(s[1..]);
      }
      assert [s[0]] + s[1..] == s;
    }
  }

  /** Two different messages never encode to the same text. */
  lemma EncodedInjective(a: seq<bv8>, b: seq<bv8>)
    requires Encoded(a) == Encoded(b)
    ensures a == b
  {
    DecodeEncoded(a);
    DecodeEncoded(b);
  }

  /** Appending one byte appends its encoding; the step the encoder's loop takes. */
  lemma EncodedSnoc(s: seq<bv8>, c: bv8)
    ensures Encoded(s + [c]) == Encoded(s) + EncodeByte(c)
  {
    EncodedAppend(s, [c]);
    assert Encoded([c]) == EncodeByte(c) + Encoded([]);
  }

  /** urlencode: appends the encoding of each byte in turn. */
  method UrlEncode(str: seq<bv8>) returns (encoded: seq<bv8>)
    ensures encoded == Encoded(str)
  {
    encoded := [];
    for i := 0 to |str|
      invariant encoded == Encoded(str[..i])
    {
      var c := str[i];
      ghost var prev := encoded;
      if IsAlnum(c) {
        encoded := encoded + [c];
      } else {
        var code1 := (c & 0xF) + Digit0;
        if (c & 0xF) > 9 { code1 := (c & 0xF) - 10 + UpperA; }
        var code0 := ((c >> 4) & 0xF) + Digit0;
        if ((c >> 4) & 0xF) > 9 { code0 := ((c >> 4) & 0xF) - 10 + UpperA; }
        assert [Percent, code0, code1] == EncodeByte(c);
        encoded := encoded + [Percent];
        encoded := encoded + [code0];
        encoded := encoded + [code1];
        assert encoded == prev + [Percent, code0, code1];
      }
      assert encoded == prev + EncodeByte(c);
      EncodedSnoc(str[..i], c);
      assert str[..i + 1] == str[..i] + [c];
    }
    assert str[..|str|] == str;
  }
}
