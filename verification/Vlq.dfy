/**
 Base64 variable-length quantities (ECMA-426, section 6): internal/compile/source_trace.go: appendVLQ and the
 decoder of tsgo/sourcemap/decoder.go.
 */
module Vlq {
  import opened Wrappers

  /** The base64 alphabet: upper case, lower case, digits, '+' and '/'. */
  function Digit(d: nat): char
    requires d < 64
  {
    if d < 26 then ('A' as int + d) as char
    else if d < 52 then ('a' as int + d - 26) as char
    else if d < 62 then ('0' as int + d - 52) as char
    else if d == 62 then '+' else '/'
  }

  /** The 64 characters in the order of their values. */
  const ALPHABET: string := UPPER + LOWER + NUMERALS + "+/"
  const UPPER: string := "ABCDEFGHIJKLMNOPQRSTUVWXYZ"
  const LOWER: string := "abcdefghijklmnopqrstuvwxyz"
  const NUMERALS: string := "0123456789"

  /** The value of a base64 character. */
  function ValueOf(c: char): Option<nat> {
    if 'A' <= c <= 'Z' then Some(c as int - 'A' as int)
    else if 'a' <= c <= 'z' then Some(c as int - 'a' as int + 26)
    else if '0' <= c <= '9' then Some(c as int - '0' as int + 52)
    else if c == '+' then Some(62)
    else if c == '/' then Some(63)
    else None
  }

  lemma DigitIsLetter(d: nat)
    requires d < 64
    ensures |ALPHABET| == 64 && Digit(d) == ALPHABET[d]
  {
    if d < 26 {
      UpperIs(d);
    } else if d < 52 {
      LowerIs(d - 26);
    } else if d < 62 {
      NumeralIs(d - 52);
    }
  }

  lemma UpperIs(d: nat)
    requires d < 26
    ensures |UPPER| == 26 && Digit(d) == UPPER[d]
  {
  }

  lemma LowerIs(d: nat)
    requires d < 26
    ensures |LOWER| == 26 && Digit(26 + d) == LOWER[d]
  {
  }

  lemma NumeralIs(d: nat)
    requires d < 10
    ensures |NUMERALS| == 10 && Digit(52 + d) == NUMERALS[d]
  {
  }

  /** A character has a value exactly when it is in the alphabet, and then it is its index. */
  lemma ValueIsIndex(c: char, d: nat)
    ensures ValueOf(c) == Some(d) <==> d < 64 && |ALPHABET| == 64 && ALPHABET[d] == c
  {
    if d < 64 {
      DigitIsLetter(d);
      DigitRoundTrip(d);
    }
    if ValueOf(c) == Some(d) { assert Digit(d) == c; }
  }

  lemma DigitRoundTrip(d: nat)
    requires d < 64
    ensures ValueOf(Digit(d)) == Some(d) && Digit(d) != ',' && Digit(d) != ';'
  {
  }

  // ----- signed numbers as natural ones

  function ToNat(v: int): nat {
    if v < 0 then 2 * -v + 1 else 2 * v
  }

  function FromNat(n: nat): int {
    if n % 2 == 0 then n / 2 else -(n / 2)
  }

  // ----- digits, least significant first; all but the last carry the continuation bit

  function EncodeNat(n: nat): string {
    if n < 32 then [Digit(n)] else [Digit(n % 32 + 32)] + EncodeNat(n / 32)
  }

  datatype Read = Bad | Good(value: nat, rest: string)

  function DecodeNat(s: string): (r: Read)
    ensures r.Good? ==> |r.rest| < |s|
  {
    if s == "" || ValueOf(s[0]).None? then Bad
    else
      var d := ValueOf(s[0]).value;
      if d < 32 then Good(d, s[1..])
      else
        var more := DecodeNat(s[1..]);
        if more.Bad? then Bad else Good(d % 32 + 32 * more.value, more.rest)
  }

  function Extended(d: nat, more: Read): Read {
    if more.Bad? then Bad else Good(d + 32 * more.value, more.rest)
  }

  lemma DecodeHead(c: char, d: nat, s: string)
    requires ValueOf(c) == Some(d)
    ensures DecodeNat([c] + s) == if d < 32 then Good(d, s) else Extended(d % 32, DecodeNat(s))
  {
    assert ([c] + s)[1..] == s;
  }

  lemma CarryOn(low: nat, high: nat, s: string, rest: string)
    requires low < 32 && DecodeNat(s + rest) == Good(high, rest)
    ensures DecodeNat([Digit(low + 32)] + s + rest) == Good(low + 32 * high, rest)
  {
    DigitRoundTrip(low + 32);
    DecodeHead(Digit(low + 32), low + 32, s + rest);
    assert [Digit(low + 32)] + s + rest == [Digit(low + 32)] + (s + rest);
  }

  lemma {:induction false} NatRoundTrip(n: nat, rest: string)
    ensures DecodeNat(EncodeNat(n) + rest) == Good(n, rest)
  {
    if n < 32 {
      DigitRoundTrip(n);
      DecodeHead(Digit(n), n, rest);
    } else {
      NatRoundTrip(n / 32, rest);
      CarryOn(n % 32, n / 32, EncodeNat(n / 32), rest);
    }
  }

  function Encode(v: int): (s: string)
    ensures s != ""
  {
    EncodeNat(ToNat(v))
  }

  datatype Number = NoNumber | Number(value: int, rest: string)

  function Decode(s: string): (r: Number)
    ensures r.Number? ==> |r.rest| < |s|
  {
    var r := DecodeNat(s);
    if r.Bad? then NoNumber else Number(FromNat(r.value), r.rest)
  }

  /** Reading back a written number gives the number and what followed it; it starts with no separator. */
  lemma RoundTrip(v: int, rest: string)
    ensures Decode(Encode(v) + rest) == Number(v, rest)
    ensures Encode(v)[0] != ',' && Encode(v)[0] != ';'
  {
    NatRoundTrip(ToNat(v), rest);
    var n := ToNat(v);
    DigitRoundTrip(if n < 32 then n else n % 32 + 32);
  }

  // ----- the format, said of the written text alone

  /** The values of the characters of a text. */
  ghost predicate Spells(digits: seq<nat>, s: string) {
    |digits| == |s| && forall k :: 0 <= k < |s| ==> ValueOf(s[k]) == Some(digits[k])
  }

  /** Five bits from each digit, the first one lowest. */
  ghost function FiveBits(digits: seq<nat>): nat {
    if digits == [] then 0 else digits[0] % 32 + 32 * FiveBits(digits[1..])
  }

  /** All digits but the last have the bit of value 32 set. */
  ghost predicate Continued(digits: seq<nat>) {
    digits != [] && forall k :: 0 <= k < |digits| ==> (digits[k] >= 32 <==> k < |digits| - 1)
  }

  lemma {:induction false} NatFormat(n: nat) returns (digits: seq<nat>)
    ensures Spells(digits, EncodeNat(n)) && Continued(digits) && FiveBits(digits) == n
  {
    if n < 32 {
      DigitRoundTrip(n);
      digits := [n];
      assert digits[1..] == [];
    } else {
      var rest := NatFormat(n / 32);
      DigitRoundTrip(n % 32 + 32);
      digits := Prepended(n % 32, n / 32, EncodeNat(n / 32), rest);
    }
  }

  lemma Prepended(low: nat, high: nat, s: string, rest: seq<nat>) returns (digits: seq<nat>)
    requires low < 32 && ValueOf(Digit(low + 32)) == Some(low + 32)
    requires Spells(rest, s) && Continued(rest) && FiveBits(rest) == high
    ensures Spells(digits, [Digit(low + 32)] + s) && Continued(digits) && FiveBits(digits) == low + 32 * high
  {
    digits := [low + 32] + rest;
    assert digits[1..] == rest;
    Carried(low);
  }

  lemma Carried(low: nat)
    requires low < 32
    ensures (low + 32) % 32 == low
  {
  }

  /**
   A number is written as digits of five bits, low ones first, a continuation bit on all but the last; the lowest bit
   of all is the sign and the others are the magnitude.
   */
  lemma WrittenFormat(v: int) returns (digits: seq<nat>)
    ensures Spells(digits, Encode(v)) && Continued(digits)
    ensures digits[0] % 2 == 1 <==> v < 0
    ensures FiveBits(digits) / 2 == if v < 0 then -v else v
  {
    digits := NatFormat(ToNat(v));
    LowestBit(digits);
    SignAndMagnitude(v);
  }

  lemma SignAndMagnitude(v: int)
    ensures ToNat(v) % 2 == 1 <==> v < 0
    ensures ToNat(v) / 2 == if v < 0 then -v else v
  {
  }

  /** What digits stand for: the lowest bit is the sign. */
  ghost function Signed(n: nat): int {
    if n % 2 == 1 then -(n / 2) else n / 2
  }

  lemma {:induction false} DigitsRead(digits: seq<nat>, s: string, rest: string)
    requires Spells(digits, s) && Continued(digits)
    ensures DecodeNat(s + rest) == Good(FiveBits(digits), rest)
    decreases |digits|
  {
    assert s + rest == [s[0]] + (s[1..] + rest);
    DecodeHead(s[0], digits[0], s[1..] + rest);
    if |digits| == 1 {
      assert digits[1..] == [] && s[1..] + rest == rest;
    } else {
      DigitsRead(digits[1..], s[1..], rest);
    }
  }

  lemma {:induction false} ReadDigits(s: string) returns (digits: seq<nat>, k: nat)
    requires DecodeNat(s).Good?
    ensures k <= |s| && Spells(digits, s[..k]) && Continued(digits) && DecodeNat(s).rest == s[k..]
  {
    var d := ValueOf(s[0]).value;
    if d < 32 {
      digits, k := [d], 1;
    } else {
      var more, j := ReadDigits(s[1..]);
      digits, k := [d] + more, j + 1;
    }
  }

  /** Reading gives a number exactly when the text starts with the digits of one, and then that number. */
  lemma ReadExactly(s: string)
    ensures
      Decode(s).Number? <==> exists digits, k :: 0 <= k <= |s| && Spells(digits, s[..k]) && Continued(digits)
    ensures
      forall digits, k :: 0 <= k <= |s| && Spells(digits, s[..k]) && Continued(digits) ==>
        Decode(s) == Number(Signed(FiveBits(digits)), s[k..])
  {
    if Decode(s).Number? {
      var digits, k := ReadDigits(s);
    }
    forall digits, k | 0 <= k <= |s| && Spells(digits, s[..k]) && Continued(digits)
      ensures Decode(s) == Number(Signed(FiveBits(digits)), s[k..])
    {
      assert s == s[..k] + s[k..];
      DigitsRead(digits, s[..k], s[k..]);
    }
  }

  lemma LowestBit(digits: seq<nat>)
    requires digits != []
    ensures FiveBits(digits) % 2 == digits[0] % 2
  {
    Parity(digits[0], FiveBits(digits[1..]));
  }

  lemma Parity(d: nat, more: nat)
    ensures (d % 32 + 32 * more) % 2 == d % 2
  {
    EvenShift(d % 32, 16 * more);
    EvenShift(d % 32, 16 * (d / 32));
  }

  lemma EvenShift(a: int, b: int)
    ensures (a + 2 * b) % 2 == a % 2
  {
  }

  /** Writes the digits in a loop, as the source does. */
  method AppendVLQ(builder: string, v: int) returns (out: string)
    ensures out == builder + Encode(v)
  {
    var value := if v < 0 then -v * 2 + 1 else v * 2;
    out := builder;
    while value >= 32
      invariant value >= 0 && out + EncodeNat(value) == builder + Encode(v)
    {
      out := out + [Digit(value % 32 + 32)];
      value := value / 32;
    }
    out := out + [Digit(value)];
  }

  /** The digits from `pos` on, shifted by `scale`, complete the sum to what is read from `start`. */
  ghost predicate Reading(s: string, start: nat, pos: nat, sum: nat, scale: nat)
    requires start <= pos <= |s|
  {
    DecodeNat(s[start..]) ==
      match DecodeNat(s[pos..])
      case Bad => Bad
      case Good(value, rest) => Good(sum + scale * value, rest)
  }

  lemma ReadingOn(s: string, start: nat, pos: nat, sum: nat, scale: nat, d: nat, next: nat, wider: nat)
    requires start <= pos < |s| && ValueOf(s[pos]) == Some(d) && Reading(s, start, pos, sum, scale)
    requires next == sum + d % 32 * scale && wider == scale * 32
    ensures d >= 32 ==> Reading(s, start, pos + 1, next, wider)
    ensures d < 32 ==> DecodeNat(s[start..]) == Good(next, s[pos + 1..])
  {
    assert s[pos..] == [s[pos]] + s[pos + 1..];
    DecodeHead(s[pos], d, s[pos + 1..]);
    if d < 32 {
      LastDigit(sum, scale, d);
    } else {
      var more := DecodeNat(s[pos + 1..]);
      if more.Good? { Shifted(sum, scale, d % 32, more.value); }
    }
  }

  lemma LastDigit(sum: nat, scale: nat, d: nat)
    requires d < 32
    ensures sum + scale * d == sum + d % 32 * scale
  {
  }

  lemma Shifted(sum: nat, scale: nat, d: nat, more: nat)
    ensures sum + scale * (d + 32 * more) == sum + d * scale + scale * 32 * more
  {
  }

  /** Without another digit there is no number. */
  lemma ReadingStops(s: string, start: nat, pos: nat, sum: nat, scale: nat)
    requires start <= pos <= |s| && Reading(s, start, pos, sum, scale) && (pos == |s| || ValueOf(s[pos]).None?)
    ensures DecodeNat(s[start..]).Bad?
  {
  }

  /** Reads the digits in a loop, each scaled by five bits more than the one before. */
  method ReadVLQ(mappings: string, start: nat) returns (ok: bool, value: int, pos: nat)
    requires start <= |mappings|
    ensures start <= pos <= |mappings|
    ensures ok <==> Decode(mappings[start..]).Number?
    ensures ok ==> Decode(mappings[start..]) == Number(value, mappings[pos..])
  {
    pos := start;
    var sum: nat, scale: nat := 0, 1;
    while true
      invariant start <= pos <= |mappings| && Reading(mappings, start, pos, sum, scale)
      decreases |mappings| - pos
    {
      if pos >= |mappings| || ValueOf(mappings[pos]).None? {
        ReadingStops(mappings, start, pos, sum, scale);
        return false, -1, pos;
      }
      var d := ValueOf(mappings[pos]).value;
      var next, wider := sum + d % 32 * scale, scale * 32;
      ReadingOn(mappings, start, pos, sum, scale, d, next, wider);
      sum, scale, pos := next, wider, pos + 1;
      if d < 32 { return true, FromNat(sum), pos; }
    }
  }
}
