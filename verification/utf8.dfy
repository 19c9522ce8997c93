/** Rust strings are UTF-8: `String::into_bytes` puts the encoding on the
    wire and `str::len` counts its bytes. This module is that encoding
    (section 3 of RFC 3629) and a strict decoder that undoes it. */
module Utf8 {
  import opened Wrappers

  type byte = x: int | 0 <= x < 256

  predicate IsAscii(s: string) {
    forall i :: 0 <= i < |s| ==> s[i] as int < 0x80
  }

  /** The one to four bytes of a scalar value. ASCII stands for itself and
      every byte of a longer sequence has its high bit set, so an encoded
      non-ASCII character never contains a CR, LF or any other ASCII byte. */
  function EncodeChar(c: char): (bs: seq<byte>)
    ensures 1 <= |bs| <= 4
    ensures c as int < 0x80 ==> bs == [c as int]
    ensures c as int >= 0x80 ==> forall i :: 0 <= i < |bs| ==> bs[i] >= 0x80
  {
    var v := c as int;
    if v < 0x80 then [v]
    else if v < 0x800 then [0xC0 + v / 0x40, 0x80 + v % 0x40]
    else if v < 0x1_0000 then [0xE0 + v / 0x1000, 0x80 + (v / 0x40) % 0x40, 0x80 + v % 0x40]
    else [0xF0 + v / 0x4_0000, 0x80 + (v / 0x1000) % 0x40, 0x80 + (v / 0x40) % 0x40, 0x80 + v % 0x40]
  }

  /** `String::into_bytes`. */
  function Encode(s: string): (bs: seq<byte>)
    ensures |bs| >= |s|
    decreases |s|
  {
    if |s| == 0 then [] else EncodeChar(s[0]) + Encode(s[1..])
  }

  /** `str::len`: the number of bytes of the encoding. */
  function ByteLength(s: string): nat {
    |Encode(s)|
  }

  /** Sequence length announced by a lead byte. */
  function Width(lead: byte): (w: nat)
    ensures 1 <= w <= 4
  {
    if lead < 0x80 then 1 else if lead < 0xE0 then 2 else if lead < 0xF0 then 3 else 4
  }

  predicate IsContinuation(b: byte) {
    0x80 <= b < 0xC0
  }

  /** Decodes one complete sequence; rejects bad continuation bytes, overlong
      forms, surrogates and values above U+10FFFF. */
  function DecodeChar(bs: seq<byte>): (r: Option<char>)
    requires 1 <= |bs| <= 4 && |bs| == Width(bs[0])
  {
    if |bs| == 1 then Some(bs[0] as char)
    else if !(bs[0] >= 0xC0 && forall i :: 1 <= i < |bs| ==> IsContinuation(bs[i])) then None
    else
      var b: seq<int> := bs;
      var v :=
        if |b| == 2 then (b[0] - 0xC0) * 0x40 + (b[1] - 0x80)
        else if |b| == 3 then (b[0] - 0xE0) * 0x1000 + (b[1] - 0x80) * 0x40 + (b[2] - 0x80)
        else (b[0] - 0xF0) * 0x4_0000 + (b[1] - 0x80) * 0x1000 + (b[2] - 0x80) * 0x40 + (b[3] - 0x80);
      var least: int := if |bs| == 2 then 0x80 else if |bs| == 3 then 0x800 else 0x1_0000;
      if v < least || v > 0x10_FFFF || (0xD800 <= v < 0xE000) then None
      else Some(v as char)
  }

  /** Strict UTF-8 decoding (`String::from_utf8`); `None` on malformed
      input. */
  function Decode(bs: seq<byte>): Option<string>
    decreases |bs|
  {
    if |bs| == 0 then Some([])
    else
      var w := Width(bs[0]);
      if |bs| < w then None
      else
        match DecodeChar(bs[..w])
        case None => None
        case Some(c) =>
          match Decode(bs[w..])
          case None => None
          case Some(rest) => Some([c] + rest)
  }

  lemma Split64(v: int, q: int, r: int)
    requires v == q * 0x40 + r && 0 <= r < 0x40
    ensures v / 0x40 == q && v % 0x40 == r
  {
  }

  lemma Split4096(v: int, q: int, r: int)
    requires v == q * 0x1000 + r && 0 <= r < 0x1000
    ensures v / 0x1000 == q && v % 0x1000 == r
  {
  }

  lemma Split40000(v: int, q: int, r: int)
    requires v == q * 0x4_0000 + r && 0 <= r < 0x4_0000
    ensures v / 0x4_0000 == q && v % 0x4_0000 == r
  {
  }

  lemma DecodeEncodeChar(c: char)
    ensures var bs := EncodeChar(c); Width(bs[0]) == |bs| && DecodeChar(bs) == Some(c)
  {
    var v := c as int;
    if v < 0x80 {
    } else if v < 0x800 {
      DecodeEncodeTwo(c);
    } else if v < 0x1_0000 {
      DecodeEncodeThree(c);
    } else {
      DecodeEncodeFour(c);
    }
  }

  lemma DecodeEncodeTwo(c: char)
    requires 0x80 <= c as int < 0x800
    ensures var bs := EncodeChar(c); Width(bs[0]) == |bs| == 2 && DecodeChar(bs) == Some(c)
  {
    var v := c as int;
    assert (v / 0x40) * 0x40 + v % 0x40 == v;
  }

  lemma DecodeEncodeThree(c: char)
    requires 0x800 <= c as int < 0x1_0000
    ensures var bs := EncodeChar(c); Width(bs[0]) == |bs| == 3 && DecodeChar(bs) == Some(c)
  {
    var v := c as int;
    var hi, mid, lo := v / 0x1000, (v / 0x40) % 0x40, v % 0x40;
    assert v == (v / 0x40) * 0x40 + lo;
    assert v / 0x40 == (v / 0x40 / 0x40) * 0x40 + mid;
    Split4096(v, v / 0x40 / 0x40, mid * 0x40 + lo);
    assert hi * 0x1000 + mid * 0x40 + lo == v;
  }

  lemma DecodeEncodeFour(c: char)
    requires 0x1_0000 <= c as int
    ensures var bs := EncodeChar(c); Width(bs[0]) == |bs| == 4 && DecodeChar(bs) == Some(c)
  {
    var v := c as int;
    var top, hi, mid, lo := v / 0x4_0000, (v / 0x1000) % 0x40, (v / 0x40) % 0x40, v % 0x40;
    var u := v / 0x40;
    assert v == u * 0x40 + lo;
    assert u == (u / 0x40) * 0x40 + mid;
    Split4096(v, u / 0x40, mid * 0x40 + lo);
    var t := v / 0x1000;
    assert t == (t / 0x40) * 0x40 + hi;
    Split40000(v, t / 0x40, hi * 0x1000 + mid * 0x40 + lo);
    assert top * 0x4_0000 + hi * 0x1000 + mid * 0x40 + lo == v;
  }

  /** A sequence the decoder accepts is the encoding of what it decodes to. */
  lemma EncodeDecodeChar(bs: seq<byte>)
    requires 1 <= |bs| <= 4 && |bs| == Width(bs[0])
    ensures DecodeChar(bs).Some? ==> EncodeChar(DecodeChar(bs).value) == bs
  {
    if DecodeChar(bs).Some? {
      if |bs| == 2 {
        EncodeDecodeTwo(bs);
      } else if |bs| == 3 {
        EncodeDecodeThree(bs);
      } else if |bs| == 4 {
        EncodeDecodeFour(bs);
      }
    }
  }

  lemma EncodeDecodeTwo(bs: seq<byte>)
    requires |bs| == 2 == Width(bs[0]) && DecodeChar(bs).Some?
    ensures EncodeChar(DecodeChar(bs).value) == bs
  {
    var v := DecodeChar(bs).value as int;
    var b: seq<int> := bs;
    Split64(v, b[0] - 0xC0, b[1] - 0x80);
  }

  lemma EncodeDecodeThree(bs: seq<byte>)
    requires |bs| == 3 == Width(bs[0]) && DecodeChar(bs).Some?
    ensures EncodeChar(DecodeChar(bs).value) == bs
  {
    var v := DecodeChar(bs).value as int;
    var b: seq<int> := bs;
    var lo, mid := b[2] - 0x80, b[1] - 0x80;
    Split64(v, (b[0] - 0xE0) * 0x40 + mid, lo);
    Split64(v / 0x40, b[0] - 0xE0, mid);
    Split4096(v, b[0] - 0xE0, mid * 0x40 + lo);
  }

  lemma EncodeDecodeFour(bs: seq<byte>)
    requires |bs| == 4 == Width(bs[0]) && DecodeChar(bs).Some?
    ensures EncodeChar(DecodeChar(bs).value) == bs
  {
    var v := DecodeChar(bs).value as int;
    var b: seq<int> := bs;
    var lo, mid, hi := b[3] - 0x80, b[2] - 0x80, b[1] - 0x80;
    Split64(v, (b[0] - 0xF0) * 0x1000 + hi * 0x40 + mid, lo);
    Split64(v / 0x40, (b[0] - 0xF0) * 0x40 + hi, mid);
    Split4096(v, (b[0] - 0xF0) * 0x40 + hi, mid * 0x40 + lo);
    Split64(v / 0x1000, b[0] - 0xF0, hi);
    Split40000(v, b[0] - 0xF0, hi * 0x1000 + mid * 0x40 + lo);
  }

  /** Decoding inverts encoding. */
  lemma {:induction false} DecodeEncode(s: string)
    ensures Decode(Encode(s)) == Some(s)
    decreases |s|
  {
    if |s| > 0 {
      var head := EncodeChar(s[0]);
      var bs := Encode(s);
      DecodeEncodeChar(s[0]);
      assert bs[..|head|] == head;
      assert bs[|head|..] == Encode(s[1..]);
      DecodeEncode(s[1..]);
      assert [s[0]] + s[1..] == s;
    }
  }

  /** Decoding is injective: whatever it accepts re-encodes to the input. */
  lemma {:induction false} EncodeDecode(bs: seq<byte>)
    requires Decode(bs).Some?
    ensures Encode(Decode(bs).value) == bs
    decreases |bs|
  {
    if |bs| > 0 {
      var w := Width(bs[0]);
      var c, rest := DecodeStep(bs);
      EncodeDecodeChar(bs[..w]);
      EncodeDecode(bs[w..]);
      EncodeCons(c, rest);
      SplitAt(bs, w);
    }
  }

  lemma SplitAt(bs: seq<byte>, w: nat)
    requires w <= |bs|
    ensures bs[..w] + bs[w..] == bs
  {
  }

  lemma EncodeCons(c: char, rest: string)
    ensures Encode([c] + rest) == EncodeChar(c) + Encode(rest)
  {
    var s := [c] + rest;
    assert s[0] == c && s[1..] == rest;
  }

  /** One step of the decoder: the first sequence and what follows it. */
  lemma DecodeStep(bs: seq<byte>) returns (c: char, rest: string)
    requires |bs| > 0 && Decode(bs).Some?
    ensures Width(bs[0]) <= |bs|
    ensures DecodeChar(bs[..Width(bs[0])]) == Some(c)
    ensures Decode(bs[Width(bs[0])..]) == Some(rest)
    ensures Decode(bs).value == [c] + rest
  {
    var w := Width(bs[0]);
    c := DecodeChar(bs[..w]).value;
    rest := Decode(bs[w..]).value;
  }

  lemma {:induction false} EncodeAppend(a: string, b: string)
    ensures Encode(a + b) == Encode(a) + Encode(b)
    decreases |a|
  {
    if |a| == 0 {
      assert a + b == b;
    } else {
      assert (a + b)[1..] == a[1..] + b;
      EncodeAppend(a[1..], b);
    }
  }

  /** ASCII text encodes byte for byte. */
  lemma {:induction false} EncodeAscii(s: string)
    requires IsAscii(s)
    ensures |Encode(s)| == |s|
    ensures forall i :: 0 <= i < |s| ==> Encode(s)[i] == s[i] as int
    decreases |s|
  {
    if |s| > 0 {
      EncodeAscii(s[1..]);
    }
  }

  /** No encoded byte is an ASCII character that the text does not hold. */
  lemma {:induction false} EncodeAsciiBytes(s: string, b: byte)
    requires b < 0x80
    requires forall i :: 0 <= i < |s| ==> s[i] as int != b
    ensures forall i :: 0 <= i < |Encode(s)| ==> Encode(s)[i] != b
    decreases |s|
  {
    if |s| > 0 {
      EncodeAsciiBytes(s[1..], b);
      assert Encode(s) == EncodeChar(s[0]) + Encode(s[1..]);
    }
  }

  /** A byte inside an ASCII prefix is that character's code, whatever
      follows the prefix. */
  lemma EncodeAsciiAt(a: string, rest: string, i: nat)
    requires i < |a| && IsAscii(a)
    ensures i < |Encode(a + rest)| && Encode(a + rest)[i] == a[i] as int
  {
    EncodeAppend(a, rest);
    EncodeAscii(a);
  }
}
