/**
 * Reading a key that an older release kept in user defaults as a hex
 * string: `hexToBytes` and the digit decoder `charAtHex`.
 */
module SecureKeyStore {
  import opened Wrappers

  /** A byte, as its unsigned value; `toByte()` keeps the same eight bits. */
  newtype Byte = x: int | 0 <= x < 256

  predicate IsHexChar(c: char) {
    ('0' <= c <= '9') || ('A' <= c <= 'F') || ('a' <= c <= 'f')
  }

  /** `charAtHex`: the value of a hex digit in either case, null for anything else. */
  function HexValue(c: char): (r: Option<nat>)
    ensures r.Some? <==> IsHexChar(c)
    ensures r.Some? ==> r.value < 16
  {
    if '0' <= c <= '9' then Some(c as int - '0' as int)
    else if 'A' <= c <= 'F' then Some(c as int - 'A' as int + 10)
    else if 'a' <= c <= 'f' then Some(c as int - 'a' as int + 10)
    else None
  }

  /** An upper-case and a lower-case letter digit have the same value. */
  lemma HexValueIgnoresCase(c: char)
    requires 'a' <= c <= 'f'
    ensures HexValue((c as int - 32) as char) == HexValue(c)
    ensures HexValue((c as int - 32) as char).value == c as int - 'a' as int + 10
  {
  }

  /** `t` is `s` with some of its digits a-f written upper-case. */
  predicate SameIgnoringCase(s: string, t: string) {
    |s| == |t| && forall i :: 0 <= i < |s| ==> s[i] == t[i] || ('a' <= s[i] <= 'f' && t[i] == (s[i] as int - 32) as char)
  }

  predicate AllHex(s: string) {
    forall i :: 0 <= i < |s| ==> IsHexChar(s[i])
  }

  /**
   * The byte spelled by the two digits at 2i and 2i + 1: `(hi shl 4) or lo`,
   * which is `16 * hi + lo` because `lo` has only four bits.
   */
  function PairByte(s: string, i: nat): (b: Byte)
    requires 2 * i + 1 < |s| && IsHexChar(s[2 * i]) && IsHexChar(s[2 * i + 1])
    ensures b as int == 16 * HexValue(s[2 * i]).value + HexValue(s[2 * i + 1]).value
  {
    (16 * HexValue(s[2 * i]).value + HexValue(s[2 * i + 1]).value) as Byte
  }

  /**
   * What `hexToBytes` yields: null for an odd length or any character that is
   * not a hex digit, otherwise one byte per pair of digits.
   */
  function HexDecode(s: string): (r: Option<seq<Byte>>)
    ensures r.Some? <==> |s| % 2 == 0 && AllHex(s)
    ensures r.Some? ==> |r.value| == |s| / 2
    ensures r.Some? ==> forall i :: 0 <= i < |s| / 2 ==> r.value[i] == PairByte(s, i)
  {
    if |s| % 2 != 0 || !AllHex(s) then None
    else Some(seq(|s| / 2, i requires 0 <= i < |s| / 2 => PairByte(s, i)))
  }

  /**
   * `hexToBytes`: fill one byte per pair of digits, returning null at the
   * first digit that is not hex.
   */
  method HexToBytes(s: string) returns (output: array?<Byte>)
    ensures output == null <==> HexDecode(s).None?
    ensures output != null ==> fresh(output) && output[..] == HexDecode(s).value
  {
    if |s| % 2 != 0 {
      return null;
    }
    output := new Byte[|s| / 2];
    for index := 0 to output.Length
      invariant AllHex(s[..2 * index])
      invariant forall k :: 0 <= k < index ==> output[k] == PairByte(s, k)
    {
      var hi := HexValue(s[index * 2]);
      if hi.None? {
        return null;
      }
      var lo := HexValue(s[index * 2 + 1]);
      if lo.None? {
        return null;
      }
      output[index] := (16 * hi.value + lo.value) as Byte;
      assert forall k :: 0 <= k < 2 * index + 2 ==> s[..2 * index + 2][k] == s[k];
    }
    assert s[..2 * output.Length] == s;
  }

  /** Hex text decodes the same whatever the case of its letter digits. */
  lemma DecodeIgnoresCase(s: string, t: string)
    requires SameIgnoringCase(s, t)
    ensures HexDecode(s) == HexDecode(t)
  {
    forall i | 0 <= i < |s| ensures HexValue(s[i]) == HexValue(t[i]) {
      if s[i] != t[i] {
        HexValueIgnoresCase(s[i]);
      }
    }
    assert AllHex(s) <==> AllHex(t);
    if HexDecode(s).Some? {
      forall i | 0 <= i < |s| / 2 ensures PairByte(s, i) == PairByte(t, i) {
        assert HexValue(s[2 * i]) == HexValue(t[2 * i]);
        assert HexValue(s[2 * i + 1]) == HexValue(t[2 * i + 1]);
      }
      assert HexDecode(s).value == HexDecode(t).value;
    }
  }

  // ----- A reference encoder -----

  const LOWER_DIGITS: string := "0123456789abcdef"

  /** Lower-case hex of a byte list, two digits per byte. */
  function ToHex(bytes: seq<Byte>): (s: string)
    ensures |s| == 2 * |bytes|
  {
    if |bytes| == 0 then ""
    else [LOWER_DIGITS[bytes[0] as int / 16], LOWER_DIGITS[bytes[0] as int % 16]] + ToHex(bytes[1..])
  }

  /** Byte i is spelled at positions 2i and 2i + 1, high digit first. */
  lemma {:induction false} ToHexAt(bytes: seq<Byte>, i: nat)
    requires i < |bytes|
    ensures ToHex(bytes)[2 * i] == LOWER_DIGITS[bytes[i] as int / 16]
    ensures ToHex(bytes)[2 * i + 1] == LOWER_DIGITS[bytes[i] as int % 16]
  {
    var b := bytes[0];
    var s := ToHex(bytes);
    assert s == [LOWER_DIGITS[b as int / 16], LOWER_DIGITS[b as int % 16]] + ToHex(bytes[1..]);
    if i > 0 {
      ToHexAt(bytes[1..], i - 1);
      assert s[2 * i] == ToHex(bytes[1..])[2 * (i - 1)];
    }
  }

  lemma DigitValue(d: nat)
    requires d < 16
    ensures IsHexChar(LOWER_DIGITS[d]) && HexValue(LOWER_DIGITS[d]) == Some(d)
  {
  }

  /** The two digits written for byte i decode to it. */
  lemma DecodePair(bytes: seq<Byte>, i: nat)
    requires i < |bytes|
    ensures var s := ToHex(bytes);
      IsHexChar(s[2 * i]) && IsHexChar(s[2 * i + 1]) && PairByte(s, i) == bytes[i]
  {
    ToHexAt(bytes, i);
    DigitValue(bytes[i] as int / 16);
    DigitValue(bytes[i] as int % 16);
  }

  /** The spelling uses hex digits only. */
  lemma {:induction false} ToHexAllHex(bytes: seq<Byte>)
    ensures AllHex(ToHex(bytes))
  {
    if |bytes| > 0 {
      DigitValue(bytes[0] as int / 16);
      DigitValue(bytes[0] as int % 16);
      ToHexAllHex(bytes[1..]);
    }
  }

  /** Decoding the hex spelling of bytes gives the bytes back. */
  lemma DecodeToHex(bytes: seq<Byte>)
    ensures HexDecode(ToHex(bytes)) == Some(bytes)
  {
    var s := ToHex(bytes);
    forall i | 0 <= i < |bytes|
      ensures IsHexChar(s[2 * i]) && IsHexChar(s[2 * i + 1]) && PairByte(s, i) == bytes[i]
    {
      DecodePair(bytes, i);
    }
    ToHexAllHex(bytes);
    var r := HexDecode(s).value;
    assert forall i :: 0 <= i < |bytes| ==> r[i] == bytes[i];
    assert r == bytes;
  }
}
