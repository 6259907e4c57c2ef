/** Bytes, Unicode scalar values and their UTF-8 encoding (section 3 of RFC 3629),
    plus the right-padding performed by Go's `%-Ns` verb, which counts code points. */
module Utf8 {

  type Byte = b: int | 0 <= b < 0x100

  /** A Unicode scalar value: a code point that is not a surrogate. */
  type Rune = c: int | 0 <= c < 0x11_0000 && !(0xD800 <= c < 0xE000)

  const Space: Rune := 0x20

  predicate IsContinuation(b: Byte) {
    0x80 <= b < 0xC0
  }

  /** The length of the encoded sequence that a leading byte announces (0 for a continuation byte). */
  function LeadLength(b: Byte): nat {
    if b < 0x80 then 1
    else if b < 0xC0 then 0
    else if b < 0xE0 then 2
    else if b < 0xF0 then 3
    else 4
  }

  /** The UTF-8 encoding of one scalar value (the table of section 3 of RFC 3629). */
  function EncodeRune(c: Rune): (r: seq<Byte>)
    ensures 1 <= |r| <= 4
    ensures LeadLength(r[0]) == |r|
    ensures forall i :: 1 <= i < |r| ==> IsContinuation(r[i])
    ensures |r| == 1 <==> c < 0x80
    ensures |r| == 2 <==> 0x80 <= c < 0x800
    ensures |r| == 3 <==> 0x800 <= c < 0x1_0000
  {
    if c < 0x80 then [c]
    else if c < 0x800 then [0xC0 + c / 0x40, 0x80 + c % 0x40]
    else if c < 0x1_0000 then [0xE0 + c / 0x1000, 0x80 + c / 0x40 % 0x40, 0x80 + c % 0x40]
    else [0xF0 + c / 0x4_0000, 0x80 + c / 0x1000 % 0x40, 0x80 + c / 0x40 % 0x40, 0x80 + c % 0x40]
  }

  /** Reads back the scalar value from a well-formed encoded sequence. */
  function DecodeRune(s: seq<Byte>): int
    requires 1 <= |s| <= 4
  {
    var b := seq(|s|, i requires 0 <= i < |s| => s[i] as int);
    if |s| == 1 then b[0]
    else if |s| == 2 then (b[0] - 0xC0) * 0x40 + (b[1] - 0x80)
    else if |s| == 3 then ((b[0] - 0xE0) * 0x40 + (b[1] - 0x80)) * 0x40 + (b[2] - 0x80)
    else (((b[0] - 0xF0) * 0x40 + (b[1] - 0x80)) * 0x40 + (b[2] - 0x80)) * 0x40 + (b[3] - 0x80)
  }

  lemma DivDiv64(c: nat)
    ensures c / 0x40 / 0x40 == c / 0x1000
    ensures c / 0x40 / 0x40 / 0x40 == c / 0x4_0000
  {
    var q := c / 0x1000;
    var r := c % 0x1000;
    assert c == q * 0x1000 + r;
    assert c / 0x40 == q * 0x40 + r / 0x40;
    assert c / 0x40 / 0x40 == q;
    var q2 := c / 0x4_0000;
    var r2 := c % 0x4_0000;
    assert c == q2 * 0x4_0000 + r2;
    assert c / 0x1000 == q2 * 0x40 + r2 / 0x1000;
  }

  /** Decoding undoes encoding, for every scalar value. */
  lemma DecodeEncode(c: Rune)
    ensures DecodeRune(EncodeRune(c)) == c
  {
    DivDiv64(c);
    var a := c / 0x40;
    assert c == a * 0x40 + c % 0x40;
    var b := a / 0x40;
    assert a == b * 0x40 + a % 0x40;
    assert b == b / 0x40 * 0x40 + b % 0x40;
  }

  /** Distinct scalar values have distinct encodings. */
  lemma EncodeInjective(c: Rune, d: Rune)
    requires EncodeRune(c) == EncodeRune(d)
    ensures c == d
  {
    DecodeEncode(c);
    DecodeEncode(d);
  }

  /** No encoding is a proper prefix of, or the same as, the encoding of another scalar value:
      a match of `EncodeRune(d)` at the start of `EncodeRune(c) + rest` means `c == d`. */
  lemma EncodePrefixFree(c: Rune, d: Rune, rest: seq<Byte>)
    requires |EncodeRune(c) + rest| >= |EncodeRune(d)|
    requires (EncodeRune(c) + rest)[..|EncodeRune(d)|] == EncodeRune(d)
    ensures c == d
  {
    var ec, ed := EncodeRune(c), EncodeRune(d);
    assert ec[0] == ed[0];
    assert |ec| == |ed|;
    assert ec == (ec + rest)[..|ed|];
    EncodeInjective(c, d);
  }

  /** The UTF-8 encoding of a text. */
  function Encode(text: seq<Rune>): (r: seq<Byte>)
    ensures |r| >= |text|
  {
    if text == [] then [] else EncodeRune(text[0]) + Encode(text[1..])
  }

  lemma {:induction false} EncodeAppend(a: seq<Rune>, b: seq<Rune>)
    ensures Encode(a + b) == Encode(a) + Encode(b)
  {
    if a == [] {
      assert a + b == b;
    } else {
      assert (a + b)[1..] == a[1..] + b;
      EncodeAppend(a[1..], b);
    }
  }

  predicate IsAscii(s: seq<Byte>) {
    forall i :: 0 <= i < |s| ==> s[i] < 0x80
  }

  /** A text of code points below 0x80 encodes to the same bytes. */
  lemma {:induction false} EncodeAscii(text: seq<Rune>)
    requires forall i :: 0 <= i < |text| ==> text[i] < 0x80
    ensures Encode(text) == text
  {
    if text != [] {
      EncodeAscii(text[1..]);
    }
  }

  function Spaces(n: nat): (r: seq<Rune>)
    ensures |r| == n && forall i :: 0 <= i < n ==> r[i] == Space
  {
    seq(n, _ => Space)
  }

  /** Go's `fmt.Sprintf("%-*s", width, text)`: the text, then spaces up to `width` code points. */
  function PadRight(text: seq<Rune>, width: nat): (r: seq<Rune>)
    ensures |r| == if |text| >= width then |text| else width
    ensures r[..|text|] == text
    ensures forall i :: |text| <= i < |r| ==> r[i] == Space
  {
    if |text| >= width then text else text + Spaces(width - |text|)
  }
}
