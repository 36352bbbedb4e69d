/**
  The hex layer of the binary revision: a byte window is stored as
  `chunk.hex()`, two lower-case hex digits per byte, and read back with
  `bytes.fromhex`. The decoder follows Python 3.7 and later: it accepts
  upper- and lower-case digits, skips ASCII whitespace in front of each
  digit pair (never inside one), and fails (ValueError) on any other
  character or on a dangling single digit.
*/
module Hex {
  import opened Wrappers

  /** A byte of a file's content. */
  newtype byte = b: int | 0 <= b < 256

  /** One of the digits `bytes.hex` writes: 0-9 and lower-case a-f. */
  predicate IsLowerHexDigit(c: char) {
    '0' <= c <= '9' || 'a' <= c <= 'f'
  }

  /** Every character of s is one of the digits `bytes.hex` writes. */
  predicate IsLowerHex(s: string) {
    forall i :: 0 <= i < |s| ==> IsLowerHexDigit(s[i])
  }

  function HexDigit(v: nat): (c: char)
    requires v < 16
    ensures IsLowerHexDigit(c)
  {
    if v < 10 then ('0' as int + v) as char else ('a' as int + v - 10) as char
  }

  /** The value of a hex digit in either case, None for any other character. */
  function DigitValue(c: char): (v: Option<nat>)
    ensures v.Some? <==> IsLowerHexDigit(c) || 'A' <= c <= 'F'
    ensures v.Some? ==> v.value < 16
  {
    if '0' <= c <= '9' then Some(c as nat - '0' as nat)
    else if 'a' <= c <= 'f' then Some(c as nat - 'a' as nat + 10)
    else if 'A' <= c <= 'F' then Some(c as nat - 'A' as nat + 10)
    else None
  }

  /** The characters Python's bytes.fromhex skips between digit pairs. */
  predicate IsSpace(c: char) {
    c == ' ' || c == '\t' || c == '\n' || c == '\r' || c == '\U{b}' || c == '\U{c}'
  }

  /** `bytes([b]).hex()`: the high digit, then the low digit. */
  function ByteHex(b: byte): string {
    [HexDigit(b as int / 16), HexDigit(b as int % 16)]
  }

  /** `bytes.hex()`. */
  function ToHex(bytes: seq<byte>): (s: string)
    ensures |s| == 2 * |bytes|
  {
    if bytes == [] then "" else ByteHex(bytes[0]) + ToHex(bytes[1..])
  }

  /** `bytes.hex()` writes lower-case digits only. */
  lemma {:induction false} ToHexIsLowerHex(bytes: seq<byte>)
    ensures IsLowerHex(ToHex(bytes))
  {
    if bytes != [] {
      var s, head := ToHex(bytes), ByteHex(bytes[0]);
      ToHexIsLowerHex(bytes[1..]);
      assert s == head + ToHex(bytes[1..]);
      forall i | 0 <= i < |s| ensures IsLowerHexDigit(s[i]) {
        if i >= 2 {
          assert s[i] == ToHex(bytes[1..])[i - 2];
        }
      }
    }
  }

  /** `bytes.fromhex(s)`, None where Python raises ValueError. */
  function FromHex(s: string): (r: Option<seq<byte>>)
    ensures r.Some? ==> 2 * |r.value| <= |s|
    decreases |s|
  {
    if s == [] then Some([])
    else if IsSpace(s[0]) then FromHex(s[1..])
    else if |s| < 2 then None
    else
      var hi, lo := DigitValue(s[0]), DigitValue(s[1]);
      if hi.None? || lo.None? then None
      else
        var rest := FromHex(s[2..]);
        if rest.None? then None else Some([(hi.value * 16 + lo.value) as byte] + rest.value)
  }

  lemma DigitValueOfHexDigit(v: nat)
    requires v < 16
    ensures DigitValue(HexDigit(v)) == Some(v)
  {
  }

  lemma HexDigitOfDigitValue(c: char)
    requires IsLowerHexDigit(c)
    ensures DigitValue(c).Some? && HexDigit(DigitValue(c).value) == c
  {
  }

  /** Splitting a byte into its two digits and joining them again gives the byte back. */
  lemma ByteDigits(b: byte)
    ensures ((b as int / 16) * 16 + b as int % 16) as byte == b
  {
  }

  /** Joining two digit values gives a byte whose digits are those values. */
  lemma JoinDigits(hi: nat, lo: nat)
    requires hi < 16 && lo < 16
    ensures ((hi * 16 + lo) as byte) as int / 16 == hi
    ensures ((hi * 16 + lo) as byte) as int % 16 == lo
  {
  }

  /** One step of the decoder on a string that starts with a digit pair. */
  lemma FromHexPair(s: string)
    requires |s| >= 2 && !IsSpace(s[0])
    requires DigitValue(s[0]).Some? && DigitValue(s[1]).Some? && FromHex(s[2..]).Some?
    ensures FromHex(s) == Some([(DigitValue(s[0]).value * 16 + DigitValue(s[1]).value) as byte] + FromHex(s[2..]).value)
  {
  }

  /** Decoding what `bytes.hex` produced gives back the bytes: `bytes.fromhex(b.hex()) == b`. */
  lemma {:induction false} FromHexToHex(bytes: seq<byte>)
    ensures FromHex(ToHex(bytes)) == Some(bytes)
  {
    if bytes != [] {
      var b := bytes[0];
      var hi, lo := b as int / 16, b as int % 16;
      var s := ToHex(bytes);
      assert s == ByteHex(b) + ToHex(bytes[1..]);
      assert s[0] == HexDigit(hi) && s[1] == HexDigit(lo);
      assert s[2..] == ToHex(bytes[1..]);
      FromHexToHex(bytes[1..]);
      DigitValueOfHexDigit(hi);
      DigitValueOfHexDigit(lo);
      assert !IsSpace(s[0]);
      FromHexPair(s);
      ByteDigits(b);
      assert FromHex(s) == Some([b] + bytes[1..]);
      assert [b] + bytes[1..] == bytes;
    }
  }

  /**
    Conversely, an even-length string of lower-case hex digits decodes, and
    it is exactly the encoding of what it decodes to, so the stored form of a
    byte window is unique.
  */
  lemma {:induction false} ToHexFromHex(s: string)
    requires IsLowerHex(s)
    requires |s| % 2 == 0
    ensures FromHex(s).Some? && ToHex(FromHex(s).value) == s
  {
    if s != [] {
      assert IsLowerHexDigit(s[0]) && !IsSpace(s[0]);
      assert IsLowerHexDigit(s[1]);
      LowerHexTail(s);
      ToHexFromHex(s[2..]);
      PairOfDigits(s);
      FromHexPair(s);
      var bytes := FromHex(s).value;
      assert bytes[1..] == FromHex(s[2..]).value;
      assert s == s[..2] + s[2..];
    }
  }

  /** Dropping a digit pair from lower-case hex leaves lower-case hex. */
  lemma LowerHexTail(s: string)
    requires IsLowerHex(s) && |s| >= 2
    ensures IsLowerHex(s[2..])
  {
    forall i | 0 <= i < |s[2..]| ensures IsLowerHexDigit(s[2..][i]) {
      assert s[2..][i] == s[i + 2];
    }
  }

  /** A pair of lower-case digits is how `bytes.hex` writes the byte they denote. */
  lemma PairOfDigits(s: string)
    requires |s| >= 2 && IsLowerHexDigit(s[0]) && IsLowerHexDigit(s[1])
    ensures ByteHex((DigitValue(s[0]).value * 16 + DigitValue(s[1]).value) as byte) == s[..2]
  {
    HexDigitOfDigitValue(s[0]);
    HexDigitOfDigitValue(s[1]);
    JoinDigits(DigitValue(s[0]).value, DigitValue(s[1]).value);
  }

  /** A run of lower-case digits of even length always decodes. */
  lemma {:induction false} EvenLowerHexDecodes(s: string)
    requires IsLowerHex(s)
    requires |s| % 2 == 0
    ensures FromHex(s).Some?
  {
    if s != [] {
      assert !IsSpace(s[0]);
      LowerHexTail(s);
      EvenLowerHexDecodes(s[2..]);
    }
  }

  /**
    A run of lower-case digits decodes exactly when its length is even, so
    among the strings `bytes.hex` can write, `bytes.fromhex` rejects only
    those with a dangling digit.
  */
  lemma LowerHexDecodesIffEven(s: string)
    ensures IsLowerHex(s) ==> (FromHex(s).Some? <==> |s| % 2 == 0)
  {
    if IsLowerHex(s) {
      if |s| % 2 == 0 {
        EvenLowerHexDecodes(s);
      } else {
        FromHexRejectsOddLength(s);
      }
    }
  }

  /** A run of lower-case digits of odd length is rejected: a dangling digit has no partner. */
  lemma {:induction false} FromHexRejectsOddLength(s: string)
    requires IsLowerHex(s)
    requires |s| % 2 == 1
    ensures FromHex(s) == None
  {
    assert IsLowerHexDigit(s[0]);
    assert !IsSpace(s[0]);
    if |s| >= 2 {
      LowerHexTail(s);
      FromHexRejectsOddLength(s[2..]);
    }
  }
}
