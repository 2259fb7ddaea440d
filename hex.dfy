/** ASCII hexadecimal decoding of the HEX-image reader and the file-name
    suffix test (src/test/cpp/regression/main_smp.cpp, `ends_with`, `hti`,
    `hToI`). */
module Hex {
  import opened Words

  const LowerDigits: string := "0123456789abcdef"
  const UpperDigits: string := "0123456789ABCDEF"

  /** True when `suffix` is a trailing part of `s`. */
  function EndsWith(s: string, suffix: string): (r: bool)
    ensures r <==> exists prefix: string :: prefix + suffix == s
  {
    if |suffix| > |s| then
      false
    else
      var r := s[|s| - |suffix|..] == suffix;
      assert r ==> s[..|s| - |suffix|] + suffix == s;
      r
  }

  predicate IsHexDigit(c: char)
  {
    '0' <= c <= '9' || 'a' <= c <= 'f' || 'A' <= c <= 'F'
  }

  /** The value of one digit. Letters A-F and a-f count 10..15; every other
      character is taken as `c - '0'` reduced modulo 2^32, the unchecked
      fall-through of the C code. */
  function Hti(c: char): (r: U32)
    ensures IsHexDigit(c) ==> r < 16 && (LowerDigits[r] == c || UpperDigits[r] == c)
    ensures r < 16 <==> IsHexDigit(c) || ':' <= c <= '?'
  {
    if 'A' <= c <= 'F' then c as int - 'A' as int + 10
    else if 'a' <= c <= 'f' then c as int - 'a' as int + 10
    else Wrap32(c as int - '0' as int)
  }

  /** The digit values of a run of characters. */
  function Digits(s: string): (ds: seq<U32>)
    ensures |ds| == |s|
    ensures forall i :: 0 <= i < |s| ==> ds[i] == Hti(s[i])
  {
    seq(|s|, i requires 0 <= i < |s| => Hti(s[i]))
  }

  /** Big-endian base-16 value of a digit sequence: the first digit is the most significant. */
  function BigEndian(ds: seq<int>): int
  {
    if ds == [] then 0 else BigEndian(ds[..|ds| - 1]) * 16 + ds[|ds| - 1]
  }

  /** The number `hToI` computes from the characters `s`: the big-endian
      value of their digits, reduced modulo 2^32 like the `uint32_t` accumulator. */
  function HexValue(s: string): U32
  {
    Wrap32(BigEndian(Digits(s)))
  }

  /** Digits all below 16 give a big-endian value below 16^n. */
  lemma {:induction false} BigEndianBound(ds: seq<int>)
    requires forall i :: 0 <= i < |ds| ==> 0 <= ds[i] < 16
    ensures 0 <= BigEndian(ds) < Pow16(|ds|)
  {
    if ds != [] {
      BigEndianBound(ds[..|ds| - 1]);
    }
  }

  /** On `n` genuine hex digits (n <= 8) the decoded value is exactly the
      big-endian base-16 number they spell, and it is below 16^n: below 256
      for a byte field, below 65536 for a four-digit address field. */
  lemma HexValueOfDigits(s: string)
    requires |s| <= 8
    requires forall i :: 0 <= i < |s| ==> IsHexDigit(s[i])
    ensures HexValue(s) == BigEndian(Digits(s)) < Pow16(|s|)
    ensures |s| == 2 ==> HexValue(s) < 256
    ensures |s| == 4 ==> HexValue(s) < 65536
  {
    BigEndianBound(Digits(s));
    Pow16Monotone(|s|, 8);
    assert Pow16(8) == Two32;
  }

  lemma {:induction false} Pow16Monotone(m: nat, n: nat)
    requires m <= n
    ensures Pow16(m) <= Pow16(n)
  {
    if m < n {
      Pow16Monotone(m, n - 1);
    }
  }

  /** One step of the accumulation: adding digit `d` at weight `p` to a value
      whose digits so far sit at weight 16*p. */
  lemma AccumulateStep(prev: int, d: int, p: int)
    ensures Wrap32(Wrap32(prev * (16 * p)) + Wrap32(d * p)) == Wrap32((prev * 16 + d) * p)
  {
    assert prev * (16 * p) + d * p == (prev * 16 + d) * p;
    AddMod(prev * (16 * p), d * p);
  }

  /** Adding digit i at its weight extends the value of the digits before it by one digit. */
  lemma AccumulateDigit(c: string, i: nat, value: U32)
    requires i < |c| && value == Wrap32(BigEndian(Digits(c[..i])) * Pow16(|c| - i))
    ensures Wrap32(value + Wrap32(Hti(c[i]) * Pow16(|c| - i - 1)))
         == Wrap32(BigEndian(Digits(c[..i + 1])) * Pow16(|c| - i - 1))
  {
    var prev, p := BigEndian(Digits(c[..i])), Pow16(|c| - i - 1);
    assert Digits(c[..i + 1])[..i] == Digits(c[..i]);
    assert Pow16(|c| - i) == 16 * p;
    AccumulateStep(prev, Hti(c[i]), p);
  }

  /** `hToI`: accumulates digit `i` shifted left by 4*(n-1-i) bits, in `uint32_t`. */
  method HToI(c: string) returns (value: U32)
    requires |c| <= 8  // shift amounts stay below 32
    ensures value == HexValue(c)
  {
    value := 0;
    var i := 0;
    while i < |c|
      invariant 0 <= i <= |c|
      invariant value == Wrap32(BigEndian(Digits(c[..i])) * Pow16(|c| - i))
    {
      AccumulateDigit(c, i, value);
      value := Wrap32(value + Wrap32(Hti(c[i]) * Pow16(|c| - i - 1)));
      i := i + 1;
    }
    assert c[..i] == c;
  }
}
