/**
 Hexadecimal coding: the lenient JavaScript pair of `crypto.ts`, and the strict decoder the Rust
 command line uses. Both encoders produce the same text.
 */
module Hex {
  import opened Prelude
  import opened Text

  function DigitChar(v: int): char
    requires 0 <= v < 16
  {
    if v < 10 then (48 + v) as char else (87 + v) as char
  }

  function DigitValue(c: char): (v: Option<int>)
    ensures v.Some? ==> 0 <= v.value < 16 && DigitChar(v.value) == LowerChar(c)
  {
    if '0' <= c <= '9' then Some(c as int - 48)
    else if 'a' <= c <= 'f' then Some(c as int - 87)
    else if 'A' <= c <= 'F' then Some(c as int - 55)
    else None
  }

  /** `b.toString(16).padStart(2, "0")` */
  function ByteToHex(b: Byte): string {
    var v := b as int;
    if v < 16 then "0" + [DigitChar(v)] else [DigitChar(v / 16), DigitChar(v % 16)]
  }

  /** `bytesToHex`, and `hex::encode` in Rust. */
  function BytesToHex(bytes: Bytes): string {
    if bytes == [] then "" else ByteToHex(bytes[0]) + BytesToHex(bytes[1..])
  }

  /** `parseInt` in base 16 of a two-character string, stored into a byte. A leading space or
      sign is skipped, a second character that is no digit ends the number, and NaN is 0. */
  function ParsePair(first: char, second: char): Byte {
    var a, b := DigitValue(first), DigitValue(second);
    if a.Some? then (if b.Some? then 16 * a.value + b.value else a.value) as Byte
    else if b.None? then 0
    else if IsSpace(first) || first == '+' then b.value as Byte
    else if first == '-' then ((256 - b.value) % 256) as Byte
    else 0
  }

  function Pairs(clean: string): (bytes: Bytes)
    ensures |bytes| == |clean| / 2
    ensures forall j :: 0 <= j < |bytes| ==> bytes[j] == ParsePair(clean[2 * j], clean[2 * j + 1])
  {
    if |clean| < 2 then [] else [ParsePair(clean[0], clean[1])] + Pairs(clean[2..])
  }

  function StripPrefix(hex: string): string {
    if "0x" <= hex then hex[2..] else hex
  }

  function HexToBytes(hex: string): Bytes {
    Pairs(StripPrefix(hex))
  }

  /** `hexToBytes`: two characters at a time into a fixed array. With an odd length the last,
      lone character falls outside the array, where the write has no effect. */
  method HexToBytesLoop(hex: string) returns (bytes: array<Byte>)
    ensures fresh(bytes) && bytes[..] == HexToBytes(hex)
  {
    hide ParsePair;
    var clean := StripPrefix(hex);
    bytes := new Byte[|clean| / 2](_ => 0);
    var i := 0;
    ghost var k := 0;
    while i < |clean|
      invariant i == 2 * k && 0 <= k && i <= |clean| + 1
      invariant forall j :: 0 <= j < k && j < bytes.Length ==> bytes[j] == ParsePair(clean[2 * j], clean[2 * j + 1])
    {
      if i / 2 < bytes.Length {
        bytes[i / 2] := ParsePair(clean[i], clean[i + 1]);
      }
      i, k := i + 2, k + 1;
    }
    assert k >= bytes.Length;
  }

  /** `hex::decode`: an odd length or any character that is no hex digit is an error. */
  function HexDecode(hex: string): Option<Bytes> {
    if hex == "" then Some([])
    else if |hex| == 1 then None
    else
      var a, b, rest := DigitValue(hex[0]), DigitValue(hex[1]), HexDecode(hex[2..]);
      if a.Some? && b.Some? && rest.Some?
      then Some([(16 * a.value + b.value) as Byte] + rest.value)
      else None
  }

  /** What an encoder can produce: an even number of lower-case digits. */
  predicate IsCanonical(hex: string) {
    |hex| % 2 == 0 && forall i :: 0 <= i < |hex| ==> '0' <= hex[i] <= '9' || 'a' <= hex[i] <= 'f'
  }

  /** One byte: its two digits carry its value, and nothing else about them matters. */
  lemma ByteDigits(b: Byte)
    ensures var t := ByteToHex(b);
            && |t| == 2 && IsCanonical(t)
            && DigitValue(t[0]) == Some(b as int / 16) && DigitValue(t[1]) == Some(b as int % 16)
  {
  }

  lemma PairDigits(first: char, second: char)
    requires DigitValue(first).Some? && DigitValue(second).Some?
    ensures ParsePair(first, second) as int == 16 * DigitValue(first).value + DigitValue(second).value
    ensures ByteToHex(ParsePair(first, second)) == [LowerChar(first), LowerChar(second)]
  {
  }

  lemma {:induction false} EncodeDigits(bytes: Bytes)
    ensures IsCanonical(BytesToHex(bytes))
    ensures HexDecode(BytesToHex(bytes)) == Some(bytes)
  {
    hide ByteToHex, DigitValue;
    if bytes == [] {
    } else {
      var hex := BytesToHex(bytes);
      ByteDigits(bytes[0]);
      EncodeDigits(bytes[1..]);
      assert hex[2..] == BytesToHex(bytes[1..]);
      assert bytes == [bytes[0]] + bytes[1..];
    }
  }

  lemma EncodeCons(first: Byte, rest: Bytes)
    ensures BytesToHex([first] + rest) == ByteToHex(first) + BytesToHex(rest)
  {
    assert ([first] + rest)[1..] == rest;
  }

  lemma LowerTwo(s: string)
    requires |s| >= 2
    ensures ToLower(s) == [LowerChar(s[0]), LowerChar(s[1])] + ToLower(s[2..])
  {
    hide LowerChar;
    assert s[1..][1..] == s[2..];
  }

  lemma {:induction false} StrictDigits(hex: string)
    requires HexDecode(hex).Some?
    ensures Pairs(hex) == HexDecode(hex).value
    ensures BytesToHex(HexDecode(hex).value) == ToLower(hex)
  {
    hide DigitValue, ParsePair, ByteToHex, LowerChar;
    if hex == "" {
    } else {
      PairDigits(hex[0], hex[1]);
      StrictDigits(hex[2..]);
      var first, rest := ParsePair(hex[0], hex[1]), HexDecode(hex[2..]).value;
      assert HexDecode(hex).value == [first] + rest;
      EncodeCons(first, rest);
      LowerTwo(hex);
    }
  }

  /** Where the strict decoder accepts, the lenient one agrees, and re-encoding only lowers case. */
  lemma StrictAgreesWithLenient(hex: string)
    requires HexDecode(hex).Some?
    ensures HexToBytes(hex) == HexDecode(hex).value
    ensures BytesToHex(HexDecode(hex).value) == ToLower(hex)
  {
    assert hex != "" ==> DigitValue(hex[1]).Some?;
    assert StripPrefix(hex) == hex;
    StrictDigits(hex);
  }

  /** Encoding is canonical, and both decoders undo it. */
  lemma {:induction false} DecodeOfEncode(bytes: Bytes)
    ensures IsCanonical(BytesToHex(bytes))
    ensures HexDecode(BytesToHex(bytes)) == Some(bytes)
    ensures HexToBytes(BytesToHex(bytes)) == bytes
  {
    EncodeDigits(bytes);
    StrictAgreesWithLenient(BytesToHex(bytes));
  }

  lemma {:induction false} CanonicalDecodes(hex: string)
    requires IsCanonical(hex)
    ensures HexDecode(hex).Some? && ToLower(hex) == hex
  {
    if hex == "" {
    } else {
      assert hex[1..][1..] == hex[2..];
      CanonicalDecodes(hex[2..]);
    }
  }

  /** The lenient decoder loses nothing on canonical text, and on no other text. */
  lemma EncodeOfDecode(hex: string)
    ensures BytesToHex(HexToBytes(hex)) == hex <==> IsCanonical(hex)
  {
    DecodeOfEncode(HexToBytes(hex));
    if IsCanonical(hex) {
      CanonicalDecodes(hex);
      StrictAgreesWithLenient(hex);
    }
  }

  /** A leading "0x" is ignored: the encoding of any bytes decodes with it as without. */
  lemma PrefixIsIgnored(bytes: Bytes)
    ensures HexToBytes("0x" + BytesToHex(bytes)) == bytes
  {
    DecodeOfEncode(bytes);
    var hex := BytesToHex(bytes);
    assert ("0x" + hex)[2..] == hex;
    assert hex != "" ==> |hex| >= 2 && hex[1] != 'x';
    hide BytesToHex;
    assert !("0x" <= hex);
  }

  /** What becomes of two characters that are not both digits: one digit counts alone if the other
      character follows it or is a blank or a plus before it, a minus takes it from 256, and where
      there is no number there is a zero byte. */
  lemma LenientPair(first: char, second: char)
    requires DigitValue(first).None? || DigitValue(second).None?
    requires !(first == '0' && second == 'x')
    ensures HexToBytes([first, second]) == [
              if DigitValue(first).Some? then DigitValue(first).value as Byte
              else if DigitValue(second).None? then 0
              else if first in {' ', '\t', '\n', 11 as char, 12 as char, '\r', '+'}
              then DigitValue(second).value as Byte
              else if first == '-'
              then (if DigitValue(second) == Some(0) then 0 else (256 - DigitValue(second).value) as Byte)
              else 0]
  {
    BlankChars(first);
    var hex := [first, second];
    assert hex[0] == first && hex[1] == second && "0x"[0] == '0' && "0x"[1] == 'x';
    assert hex[2..] == "";
    hide DigitValue;
  }
}
