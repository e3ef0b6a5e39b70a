/**
 The two value renderings of the label extraction: Go's `string(b)` on a byte
 slice, and `fmt.Sprintf("%07b\n", n)` on a non-negative integer.
 */
module Format {

  newtype byte = x: int | 0 <= x < 256

  /** Characters that stand for one byte each. */
  predicate IsByteString(s: string) {
    forall i :: 0 <= i < |s| ==> s[i] as int < 256
  }

  /** `string(b)`: a byte-for-byte copy, one character per byte. */
  function BytesToString(b: seq<byte>): (s: string)
    ensures |s| == |b| && IsByteString(s)
    ensures forall i :: 0 <= i < |b| ==> s[i] as int == b[i] as int
  {
    seq(|b|, i requires 0 <= i < |b| => (b[i] as int) as char)
  }

  /** The inverse view: the bytes a byte string is made of. */
  function StringToBytes(s: string): (b: seq<byte>)
    requires IsByteString(s)
    ensures |b| == |s|
  {
    seq(|s|, i requires 0 <= i < |s| => (s[i] as int) as byte)
  }

  lemma BytesRoundTrip(b: seq<byte>)
    ensures StringToBytes(BytesToString(b)) == b
  {
  }

  lemma StringRoundTrip(s: string)
    requires IsByteString(s)
    ensures BytesToString(StringToBytes(s)) == s
  {
  }

  predicate IsBinary(s: string) {
    forall i :: 0 <= i < |s| ==> s[i] == '0' || s[i] == '1'
  }

  function Bit(b: nat): char
    requires b < 2
  {
    if b == 0 then '0' else '1'
  }

  function Pow2(k: nat): (p: nat)
    ensures p >= 1
  {
    if k == 0 then 1 else 2 * Pow2(k - 1)
  }

  /** The number a string of binary digits denotes, most significant first. */
  function BinaryValue(s: string): (v: nat)
    requires IsBinary(s)
    ensures v < Pow2(|s|)
    decreases |s|
  {
    if s == [] then 0
    else
      2 * BinaryValue(s[..|s| - 1]) + (if s[|s| - 1] == '1' then 1 else 0)
  }

  /** `%b`: the base-2 digits of `n` with no leading zero ("0" for zero). */
  function BinaryDigits(n: nat): (s: string)
    ensures IsBinary(s) && |s| >= 1
    ensures s == "0" <==> n == 0
    ensures n > 0 ==> s[0] == '1'
    decreases n
  {
    if n < 2 then [Bit(n)] else BinaryDigits(n / 2) + [Bit(n % 2)]
  }

  lemma {:induction false} BinaryDigitsValue(n: nat)
    ensures BinaryValue(BinaryDigits(n)) == n
    decreases n
  {
    if n >= 2 {
      var s := BinaryDigits(n);
      assert s[..|s| - 1] == BinaryDigits(n / 2);
      BinaryDigitsValue(n / 2);
    }
  }

  function Zeros(k: nat): (z: string)
    ensures |z| == k && IsBinary(z)
    ensures forall i :: 0 <= i < k ==> z[i] == '0'
  {
    seq(k, _ => '0')
  }

  lemma {:induction false} ZerosValue(k: nat)
    ensures BinaryValue(Zeros(k)) == 0
  {
    if k > 0 {
      assert Zeros(k)[..k - 1] == Zeros(k - 1);
      ZerosValue(k - 1);
    }
  }

  /** Leading zeros do not change the number a binary string denotes. */
  lemma {:induction false} LeadingZerosValue(k: nat, s: string)
    requires IsBinary(s)
    ensures IsBinary(Zeros(k) + s) && BinaryValue(Zeros(k) + s) == BinaryValue(s)
    decreases |s|
  {
    var t := Zeros(k) + s;
    assert IsBinary(t);
    if s == [] {
      assert t == Zeros(k);
      ZerosValue(k);
    } else {
      assert t[..|t| - 1] == Zeros(k) + s[..|s| - 1];
      LeadingZerosValue(k, s[..|s| - 1]);
    }
  }

  function Max(a: int, b: int): int { if a < b then b else a }

  /** The `0` flag with width `w`: pad on the left with '0' up to length `w`. */
  function PadZeros(s: string, w: nat): (r: string)
    ensures |r| == Max(w, |s|)
    ensures r[|r| - |s|..] == s
    ensures forall i :: 0 <= i < |r| - |s| ==> r[i] == '0'
  {
    if |s| < w then Zeros(w - |s|) + s else s
  }

  /** The width of the `%07b` verb. */
  const ServicesWidth: nat := 7

  /** `fmt.Sprintf("%07b\n", n)`: the binary digits of `n`, zero-padded to at
      least seven, then a newline. The digits read back as `n`, and no zero is
      added beyond what the width asks for. */
  function FormatServices(n: nat): (r: string)
    ensures |r| >= ServicesWidth + 1 && r[|r| - 1] == '\n'
    ensures IsBinary(r[..|r| - 1]) && BinaryValue(r[..|r| - 1]) == n
    ensures |r| - 1 > ServicesWidth ==> r[0] == '1'
    ensures |r| - 1 == Max(ServicesWidth, |BinaryDigits(n)|)
  {
    var digits := BinaryDigits(n);
    var padded := PadZeros(digits, ServicesWidth);
    BinaryDigitsValue(n);
    assert padded == Zeros(|padded| - |digits|) + digits;
    LeadingZerosValue(|padded| - |digits|, digits);
    assert (padded + "\n")[..|padded|] == padded;
    padded + "\n"
  }

  /** The rendering the exposition of the source shows for 78 (0b1001110). */
  lemma FormatServicesOf78()
    ensures FormatServices(78) == "1001110\n"
  {
    assert BinaryDigits(1) == "1";
    assert BinaryDigits(2) == "10";
    assert BinaryDigits(4) == "100";
    assert BinaryDigits(9) == "1001";
    assert BinaryDigits(19) == "10011";
    assert BinaryDigits(39) == "100111";
    assert BinaryDigits(78) == "1001110";
  }

  /** Zero is printed as seven zeros. */
  lemma FormatServicesOfZero()
    ensures FormatServices(0) == "0000000\n"
  {
    assert BinaryDigits(0) == "0";
    assert Zeros(6) == "000000";
  }
}
