/**
 UTF-8 (section 3 of RFC 3629), as Go's range loop over a string decodes it.
 */
module Utf8 {

  type Byte = b: int | 0 <= b < 256
  type Rune = int

  predicate ValidRune(r: Rune) {
    0 <= r < 0xD800 || 0xE000 <= r <= 0x10FFFF
  }

  function EncodeRune(r: Rune): (s: seq<Byte>)
    requires ValidRune(r)
    ensures 1 <= |s| <= 4
  {
    if r < 0x80 then [r]
    else if r < 0x800 then [0xC0 + r / 64, 0x80 + r % 64]
    else if r < 0x10000 then [0xE0 + r / 4096, 0x80 + r / 64 % 64, 0x80 + r % 64]
    else [0xF0 + r / 262144, 0x80 + r / 4096 % 64, 0x80 + r / 64 % 64, 0x80 + r % 64]
  }

  ghost predicate IsCode(r: Rune, c: seq<Byte>) {
    ValidRune(r) && c == EncodeRune(r)
  }

  /** `codes` are the codes of valid runes `rs`. */
  ghost predicate Codes(rs: seq<Rune>, codes: seq<seq<Byte>>) {
    |rs| == |codes| && forall i {:trigger IsCode(rs[i], codes[i])} :: 0 <= i < |rs| ==> IsCode(rs[i], codes[i])
  }

  /** The text of a sequence of codes: with `Codes`, any valid UTF-8 text. */
  function Flat(codes: seq<seq<Byte>>): seq<Byte> {
    if codes == [] then [] else codes[0] + Flat(codes[1..])
  }

  predicate Continues(b: Byte) {
    0x80 <= b < 0xC0
  }

  /** The second bytes a lead byte allows; the limits keep out overlong forms, surrogates and too large runes. */
  predicate Second(lead: Byte, b: Byte) {
    && Continues(b)
    && (lead == 0xE0 ==> b >= 0xA0) && (lead == 0xED ==> b < 0xA0)
    && (lead == 0xF0 ==> b >= 0x90) && (lead == 0xF4 ==> b < 0x90)
  }

  /** The payload of a byte below its marker bits. */
  function Low(b: Byte, marker: int): int {
    b as int - marker
  }

  const RUNE_ERROR: Rune := 0xFFFD

  /** The first rune of a text and its width; an ill-formed start is one byte wide and reads as RUNE_ERROR. */
  function DecodeRune(s: seq<Byte>): (d: (Rune, nat))
    requires s != []
    ensures 1 <= d.1 <= |s|
  {
    var lead := s[0];
    if lead < 0x80 then (lead, 1)
    else if 0xC2 <= lead < 0xE0 && |s| >= 2 && Second(lead, s[1]) then
      (Low(lead, 0xC0) * 64 + Low(s[1], 0x80), 2)
    else if 0xE0 <= lead < 0xF0 && |s| >= 3 && Second(lead, s[1]) && Continues(s[2]) then
      (Low(lead, 0xE0) * 4096 + Low(s[1], 0x80) * 64 + Low(s[2], 0x80), 3)
    else if 0xF0 <= lead < 0xF5 && |s| >= 4 && Second(lead, s[1]) && Continues(s[2]) && Continues(s[3]) then
      (Low(lead, 0xF0) * 262144 + Low(s[1], 0x80) * 4096 + Low(s[2], 0x80) * 64 + Low(s[3], 0x80), 4)
    else (RUNE_ERROR, 1)
  }

  lemma DecodeTwo(r: Rune, s: seq<Byte>)
    requires 0x80 <= r < 0x800 && |s| >= 2 && s[0] == 0xC0 + r / 64 && s[1] == 0x80 + r % 64
    ensures DecodeRune(s) == (r, 2)
  {
  }

  lemma DecodeThree(r: Rune, s: seq<Byte>)
    requires 0x800 <= r < 0x10000 && ValidRune(r)
    requires |s| >= 3 && s[0] == 0xE0 + r / 4096 && s[1] == 0x80 + r / 64 % 64 && s[2] == 0x80 + r % 64
    ensures DecodeRune(s) == (r, 3)
  {
    var a, b, c := r / 4096, r / 64 % 64, r % 64;
    assert r == a * 4096 + b * 64 + c;
  }

  lemma DecodeFour(r: Rune, s: seq<Byte>)
    requires 0x10000 <= r && ValidRune(r)
    requires |s| >= 4 && s[0] == 0xF0 + r / 262144 && s[1] == 0x80 + r / 4096 % 64
    requires s[2] == 0x80 + r / 64 % 64 && s[3] == 0x80 + r % 64
    ensures DecodeRune(s) == (r, 4)
  {
    FourDigits(r);
  }

  lemma FourDigits(r: Rune)
    requires 0x10000 <= r && ValidRune(r)
    ensures r == r / 262144 * 262144 + r / 4096 % 64 * 4096 + r / 64 % 64 * 64 + r % 64
    ensures r / 262144 <= 4 && (r / 262144 == 0 ==> r / 4096 % 64 >= 16) && (r / 262144 == 4 ==> r / 4096 % 64 < 16)
  {
  }

  /** Decoding gives the encoded rune back, whatever follows it. */
  lemma DecodeEncoded(r: Rune, rest: seq<Byte>)
    requires ValidRune(r)
    ensures DecodeRune(EncodeRune(r) + rest) == (r, |EncodeRune(r)|)
  {
    var s := EncodeRune(r) + rest;
    if r < 0x80 {
    } else if r < 0x800 {
      DecodeTwo(r, s);
    } else if r < 0x10000 {
      DecodeThree(r, s);
    } else {
      DecodeFour(r, s);
    }
  }

  // ----- the format, said of the bytes alone

  /** The largest rune of each length of code. */
  ghost function Most(width: nat): int
    requires 1 <= width <= 4
  {
    if width == 1 then 0x7F else if width == 2 then 0x7FF else if width == 3 then 0xFFFF else 0x10FFFF
  }

  /** The marker bits of a lead byte. */
  ghost function Marker(width: nat): int
    requires 1 <= width <= 4
  {
    if width == 1 then 0x00 else if width == 2 then 0xC0 else if width == 3 then 0xE0 else 0xF0
  }

  /** Six bits from each byte after the first, in order. */
  ghost function SixBits(high: int, c: seq<Byte>): int
    decreases |c|
  {
    if c == [] then high else SixBits(high * 64 + Low(c[0], 0x80), c[1..])
  }

  /** The shortest code of a Unicode scalar value: a lead byte with its marker, and continuation bytes of six bits. */
  ghost predicate IsShortest(r: Rune, c: seq<Byte>) {
    && (0 <= r <= 0xD7FF || 0xE000 <= r <= 0x10FFFF)
    && 1 <= |c| <= 4 && r <= Most(|c|) && (|c| > 1 ==> r > Most(|c| - 1))
    && (forall k :: 1 <= k < |c| ==> 0x80 <= c[k] <= 0xBF)
    && c[0] >= Marker(|c|) && SixBits(Low(c[0], Marker(|c|)), c[1..]) == r
  }

  lemma SixBitsOne(high: int, a: Byte)
    ensures SixBits(high, [a]) == high * 64 + Low(a, 0x80)
  {
    assert [a][1..] == [];
  }

  lemma SixBitsTwo(high: int, a: Byte, b: Byte)
    ensures SixBits(high, [a, b]) == (high * 64 + Low(a, 0x80)) * 64 + Low(b, 0x80)
  {
    assert [a, b][1..] == [b];
    SixBitsOne(high * 64 + Low(a, 0x80), b);
  }

  lemma SixBitsThree(high: int, a: Byte, b: Byte, c: Byte)
    ensures SixBits(high, [a, b, c]) == ((high * 64 + Low(a, 0x80)) * 64 + Low(b, 0x80)) * 64 + Low(c, 0x80)
  {
    assert [a, b, c][1..] == [b, c];
    SixBitsTwo(high * 64 + Low(a, 0x80), b, c);
  }

  /** What the bits of a code add up to, for each length. */
  lemma Payload(c: seq<Byte>)
    requires 1 <= |c| <= 4
    ensures
      var bits := SixBits(Low(c[0], Marker(|c|)), c[1..]);
      && (|c| == 1 ==> bits == c[0])
      && (|c| == 2 ==> bits == Low(c[0], 0xC0) * 64 + Low(c[1], 0x80))
      && (|c| == 3 ==> bits == (Low(c[0], 0xE0) * 64 + Low(c[1], 0x80)) * 64 + Low(c[2], 0x80))
      && (|c| == 4 ==>
            bits == ((Low(c[0], 0xF0) * 64 + Low(c[1], 0x80)) * 64 + Low(c[2], 0x80)) * 64 + Low(c[3], 0x80))
  {
    var high := Low(c[0], Marker(|c|));
    if |c| == 1 {
      assert c[1..] == [];
    } else if |c| == 2 {
      SixBitsOne(high, c[1]);
      assert c[1..] == [c[1]];
    } else if |c| == 3 {
      SixBitsTwo(high, c[1], c[2]);
      assert c[1..] == [c[1], c[2]];
    } else {
      SixBitsThree(high, c[1], c[2], c[3]);
      assert c[1..] == [c[1], c[2], c[3]];
    }
  }

  /** A rune is read only where its shortest code is; anything else is one ill-formed byte. */
  lemma DecodedIsShortest(s: seq<Byte>)
    requires s != [] && DecodeRune(s) != (RUNE_ERROR, 1)
    ensures IsShortest(DecodeRune(s).0, s[..DecodeRune(s).1])
  {
    Payload(s[..DecodeRune(s).1]);
  }

  lemma EncodeIsShortest(r: Rune)
    requires ValidRune(r)
    ensures IsShortest(r, EncodeRune(r))
  {
    var c := EncodeRune(r);
    DecodeEncoded(r, []);
    assert c + [] == c && c[..|c|] == c;
    if r != RUNE_ERROR || |c| != 1 { DecodedIsShortest(c); }
  }

  lemma Divided(high: int, low: int)
    requires 0 <= low < 64
    ensures (high * 64 + low) / 64 == high && (high * 64 + low) % 64 == low
  {
  }

  lemma TwoIsEncoded(r: Rune, a: int, b: int)
    requires 0x80 <= r < 0x800 && 0 <= b < 64 && r == a * 64 + b
    ensures EncodeRune(r) == [0xC0 + a, 0x80 + b]
  {
    Divided(a, b);
  }

  lemma ThreeIsEncoded(r: Rune, a: int, b: int, c: int)
    requires 0x800 <= r < 0x10000 && ValidRune(r) && 0 <= b < 64 && 0 <= c < 64 && r == (a * 64 + b) * 64 + c
    ensures EncodeRune(r) == [0xE0 + a, 0x80 + b, 0x80 + c]
  {
    Divided(a * 64 + b, c);
    Divided(a, b);
    assert r / 4096 == r / 64 / 64;
  }

  lemma FourIsEncoded(r: Rune, a: int, b: int, c: int, d: int)
    requires 0x10000 <= r && ValidRune(r) && 0 <= b < 64 && 0 <= c < 64 && 0 <= d < 64
    requires r == ((a * 64 + b) * 64 + c) * 64 + d
    ensures EncodeRune(r) == [0xF0 + a, 0x80 + b, 0x80 + c, 0x80 + d]
  {
    Divided((a * 64 + b) * 64 + c, d);
    Divided(a * 64 + b, c);
    Divided(a, b);
    assert r / 4096 == r / 64 / 64;
    assert r / 262144 == r / 64 / 64 / 64;
  }

  lemma ShortestIsEncoded(r: Rune, c: seq<Byte>)
    requires IsShortest(r, c)
    ensures ValidRune(r) && c == EncodeRune(r)
  {
    Payload(c);
    if |c| == 2 {
      TwoIsEncoded(r, Low(c[0], 0xC0), Low(c[1], 0x80));
    } else if |c| == 3 {
      ThreeIsEncoded(r, Low(c[0], 0xE0), Low(c[1], 0x80), Low(c[2], 0x80));
    } else if |c| == 4 {
      FourIsEncoded(r, Low(c[0], 0xF0), Low(c[1], 0x80), Low(c[2], 0x80), Low(c[3], 0x80));
    }
  }

  /** The first rune of any text: the one whose shortest code it starts with, or else the error rune, one byte wide. */
  lemma DecodeExactly(s: seq<Byte>)
    requires s != []
    ensures
      if exists r, c :: IsShortest(r, c) && c <= s
      then exists r, c :: IsShortest(r, c) && c <= s && DecodeRune(s) == (r, |c|)
      else DecodeRune(s) == (0xFFFD, 1)
  {
    forall r, c | IsShortest(r, c) && c <= s ensures DecodeRune(s) == (r, |c|) {
      ShortestIsEncoded(r, c);
      DecodeEncoded(r, s[|c|..]);
      assert s == c + s[|c|..];
    }
    if DecodeRune(s) != (RUNE_ERROR, 1) { DecodedIsShortest(s); }
  }

  /** The newline byte occurs only as the newline rune. */
  lemma NewlineByte(r: Rune)
    requires ValidRune(r)
    ensures 10 in EncodeRune(r) <==> r == 10
    ensures EncodeRune(10) == [10]
  {
  }

  lemma {:induction false} FlatConcat(a: seq<seq<Byte>>, b: seq<seq<Byte>>)
    ensures Flat(a + b) == Flat(a) + Flat(b)
  {
    if a == [] {
      assert a + b == b;
    } else {
      assert (a + b)[0] == a[0] && (a + b)[1..] == a[1..] + b;
      FlatConcat(a[1..], b);
    }
  }

  lemma FlatOne(c: seq<Byte>)
    ensures Flat([c]) == c
  {
    assert [c][1..] == [];
  }

  lemma CodesSlice(rs: seq<Rune>, codes: seq<seq<Byte>>, i: nat, j: nat)
    requires Codes(rs, codes) && i <= j <= |rs|
    ensures Codes(rs[i..j], codes[i..j])
  {
    forall k | 0 <= k < j - i ensures IsCode(rs[i..j][k], codes[i..j][k]) { assert IsCode(rs[i + k], codes[i + k]); }
  }

  lemma CodesFrom(rs: seq<Rune>, codes: seq<seq<Byte>>, i: nat)
    requires Codes(rs, codes) && i <= |rs|
    ensures Codes(rs[i..], codes[i..])
  {
    CodesSlice(rs, codes, i, |rs|);
    assert rs[i..|rs|] == rs[i..] && codes[i..|rs|] == codes[i..];
  }

  lemma CodesHead(rs: seq<Rune>, codes: seq<seq<Byte>>)
    requires Codes(rs, codes) && rs != []
    ensures IsCode(rs[0], codes[0]) && Codes(rs[1..], codes[1..])
  {
    assert IsCode(rs[0], codes[0]);
    CodesFrom(rs, codes, 1);
  }

  function Newlines(s: seq<int>): nat {
    if s == [] then 0 else Newlines(s[..|s| - 1]) + if s[|s| - 1] == 10 then 1 else 0
  }

  lemma {:induction false} NewlinesConcat(a: seq<int>, b: seq<int>)
    ensures Newlines(a + b) == Newlines(a) + Newlines(b)
  {
    if b == [] {
      assert a + b == a;
    } else {
      var init := b[..|b| - 1];
      assert (a + b)[..|a + b| - 1] == a + init;
      NewlinesConcat(a, init);
    }
  }

  lemma {:induction false} NoNewlines(s: seq<int>)
    ensures Newlines(s) == 0 <==> forall i :: 0 <= i < |s| ==> s[i] != 10
  {
    if s != [] {
      var init := s[..|s| - 1];
      NoNewlines(init);
      assert forall i :: 0 <= i < |init| ==> init[i] == s[i];
    }
  }

  lemma {:induction false} NewlineBytes(rs: seq<Rune>, codes: seq<seq<Byte>>)
    requires Codes(rs, codes)
    ensures Newlines(Flat(codes)) == Newlines(rs)
  {
    if rs != [] {
      CodesHead(rs, codes);
      NewlineBytes(rs[1..], codes[1..]);
      CodeNewlines(rs[0], codes[0]);
      NewlinesConcat([rs[0]], rs[1..]);
      NewlinesConcat(codes[0], Flat(codes[1..]));
      assert rs == [rs[0]] + rs[1..];
    }
  }

  lemma CodeNewlines(r: Rune, c: seq<Byte>)
    requires IsCode(r, c)
    ensures Newlines(c) == Newlines([r])
  {
    NewlineCount(r);
    assert [r][..0] == [];
  }

  lemma CodeDecodes(r: Rune, c: seq<Byte>, rest: seq<Byte>)
    requires IsCode(r, c)
    ensures 1 <= |c| && DecodeRune(c + rest) == (r, |c|)
  {
    DecodeEncoded(r, rest);
  }

  /** The newline byte occurs only in the code of a newline, which is that byte. */
  lemma CodeNewline(r: Rune, c: seq<Byte>)
    requires IsCode(r, c)
    ensures 10 in c <==> r == 10
    ensures r == 10 ==> c == [10]
  {
    NewlineByte(r);
  }

  lemma NewlineCount(r: Rune)
    requires ValidRune(r)
    ensures Newlines(EncodeRune(r)) == if r == 10 then 1 else 0
  {
    NewlineByte(r);
    NoNewlines(EncodeRune(r));
    if r == 10 {
      assert [r][..0] == [];
    } else {
      assert forall i :: 0 <= i < |EncodeRune(r)| ==> EncodeRune(r)[i] in EncodeRune(r);
    }
  }
}
