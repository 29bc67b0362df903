/** Base-128 integers (unsigned LEB128, section 7.6 of DWARF version 4) and fixed 64-bit integers. */
module Varint {
  import opened ByteStrings
  import opened Decimal

  /** The bytes of a number, seven bits each, least significant first; all but the last are marked. */
  function Encode(v: nat): (s: Bytes)
    ensures |s| >= 1
  {
    if v < 128 then [v] else [v % 128 + 128] + Encode(v / 128)
  }

  /** A number read and the bytes it took. */
  datatype Read = Read(raw: nat, used: nat)

  /** At most `rounds` bytes, up to the first unmarked one. */
  function Decode(s: Bytes, rounds: nat): (r: Read)
    ensures r.used <= |s| && r.used <= rounds
    ensures s != [] && rounds > 0 ==> r.used >= 1
    decreases rounds
  {
    if rounds == 0 || s == [] then Read(0, 0)
    else if s[0] < 128 then Read(s[0], 1)
    else
      var r := Decode(s[1..], rounds - 1);
      Read(s[0] - 128 + 128 * r.raw, r.used + 1)
  }

  /** What ten rounds leave in 64 bits. */
  function Low64(r: Read): UInt64 { r.raw % 0x1_0000_0000_0000_0000 }

  function Pow(k: nat): (p: nat)
    ensures p >= 1
  {
    if k == 0 then 1 else 128 * Pow(k - 1)
  }

  /** A number below 128^k takes at most k bytes, and one not below takes more. */
  lemma {:induction false} EncodeLength(v: nat, k: nat)
    requires k >= 1
    ensures |Encode(v)| <= k <==> v < Pow(k)
  {
    if k == 1 {
      assert Pow(1) == 128 * Pow(0);
    } else if v >= 128 {
      EncodeLength(v / 128, k - 1);
      Shifted(v, Pow(k - 1));
    } else {
      assert Pow(k) == 128 * Pow(k - 1) && Pow(k - 1) >= 1;
    }
  }

  lemma Shifted(v: nat, p: nat)
    ensures v / 128 < p <==> v < 128 * p
  {
  }

  lemma {:induction false} DecodeEncode(v: nat, rest: Bytes, rounds: nat)
    requires |Encode(v)| <= rounds
    ensures Decode(Encode(v) + rest, rounds) == Read(v, |Encode(v)|)
  {
    if v >= 128 {
      DecodeEncode(v / 128, rest, rounds - 1);
      assert (Encode(v) + rest)[1..] == Encode(v / 128) + rest;
    }
  }

  /** `EstimateUnsignedIntBytes`. */
  function Estimate(v: UInt64): nat {
    if v <= 0x7F then 1
    else if v <= 0x3FFF then 2
    else if v <= 0x1F_FFFF then 3
    else if v <= 0xFFF_FFFF then 4
    else if v <= 0x7_FFFF_FFFF then 5
    else if v <= 0x3FF_FFFF_FFFF then 6
    else if v <= 0x1_FFFF_FFFF_FFFF then 7
    else if v <= 0xFF_FFFF_FFFF_FFFF then 8
    else if v <= 0x7FFF_FFFF_FFFF_FFFF then 9
    else 10
  }

  lemma Powers()
    ensures Pow(1) == 0x80 && Pow(2) == 0x4000 && Pow(3) == 0x20_0000 && Pow(4) == 0x1000_0000
    ensures Pow(5) == 0x8_0000_0000 && Pow(6) == 0x400_0000_0000 && Pow(7) == 0x2_0000_0000_0000
    ensures Pow(8) == 0x100_0000_0000_0000 && Pow(9) == 0x8000_0000_0000_0000 && Pow(10) == 0x40_0000_0000_0000_0000
  {
    assert Pow(1) == 128 * Pow(0);
    assert Pow(3) == 128 * Pow(2);
    assert Pow(5) == 128 * Pow(4);
    assert Pow(7) == 128 * Pow(6);
    assert Pow(9) == 128 * Pow(8);
  }

  /** The estimate is the length, which lies between 1 and 10. */
  lemma EstimateIsLength(v: UInt64)
    ensures |Encode(v)| == Estimate(v) && 1 <= |Encode(v)| <= 10
  {
    hide Encode, Pow;
    Powers();
    var n := Estimate(v);
    EncodeLength(v, n);
    if n > 1 { EncodeLength(v, n - 1); }
  }

  /** Decoding what was encoded, whatever follows, gives the value and stops right behind it. */
  lemma RoundTrip(v: UInt64, rest: Bytes)
    ensures var r := Decode(Encode(v) + rest, 10); Low64(r) == v && r.used == |Encode(v)|
  {
    hide Decode;
    EstimateIsLength(v);
    DecodeEncode(v, rest, 10);
  }

  // ----- Signed values in the same bytes -----

  lemma SignedRoundTrip(n: int, rest: Bytes)
    requires INT64_MIN <= n <= INT64_MAX
    ensures var r := Decode(Encode(ToUnsigned(n)) + rest, 10); ToSigned(Low64(r)) == n && r.used == |Encode(ToUnsigned(n))|
  {
    RoundTrip(ToUnsigned(n), rest);
    hide Decode, Encode;
  }

  // ----- The loops of the codec -----

  method EncodeVarUnsignedInt64(value: UInt64, buf: array<byte>) returns (cnt: nat)
    requires buf.Length >= 10
    modifies buf
    ensures 1 <= cnt <= 10 && buf[..cnt] == Encode(value)
  {
    EstimateIsLength(value);
    cnt := 0;
    var v: nat := value;
    ghost var all := Encode(value);
    while v >= 128
      invariant cnt < 10 && cnt + |Encode(v)| == |all| <= 10 && buf[..cnt] + Encode(v) == all
      decreases v
    {
      buf[cnt] := v % 128 + 128;
      ghost var more := Encode(v / 128);
      assert buf[..cnt + 1] + more == buf[..cnt] + Encode(v);
      v, cnt := v / 128, cnt + 1;
    }
    buf[cnt] := v;
    cnt := cnt + 1;
  }

  function Times(p: nat, x: nat): nat { p * x }

  function Low(b: byte): nat { b % 128 }

  /** Seven more bits on top of those gathered: the shifted bits are above all others, so the
      bitwise or is an addition, and what leaves the 64 bits is lost. */
  function Gather(valen: nat, weight: nat, b: byte): UInt64 {
    (valen + Times(weight, Low(b))) % 0x1_0000_0000_0000_0000
  }

  /** Where a decoding loop stands: `acc` gathered from `i` bytes, the rest still to come. */
  ghost predicate Halfway(s: Bytes, i: nat, acc: nat, valen: nat) {
    && i <= |s| && i <= 10 && acc < Pow(i) && valen == acc % 0x1_0000_0000_0000_0000
    && acc + Times(Pow(i), Decode(s[i..], 10 - i).raw) == Decode(s, 10).raw
    && i + Decode(s[i..], 10 - i).used == Decode(s, 10).used
  }

  lemma Started(s: Bytes)
    ensures Halfway(s, 0, 0, 0)
  {
    assert s[0..] == s;
    assert Pow(0) == 1;
  }

  lemma DecodeStep(s: Bytes, i: nat)
    requires i < 10 && i < |s|
    ensures var r, t := Decode(s[i..], 10 - i), Decode(s[i + 1..], 9 - i);
            r == if s[i] < 128 then Read(Low(s[i]), 1) else Read(Low(s[i]) + 128 * t.raw, t.used + 1)
  {
    assert s[i..][0] == s[i] && s[i..][1..] == s[i + 1..];
  }

  lemma GatherMod(acc: nat, weight: nat, b: byte)
    ensures Gather(acc % 0x1_0000_0000_0000_0000, weight, b) == (acc + Times(weight, Low(b))) % 0x1_0000_0000_0000_0000
  {
    ModAdd(acc, Times(weight, Low(b)));
  }

  lemma ModAdd(a: nat, b: nat)
    ensures (a % 0x1_0000_0000_0000_0000 + b) % 0x1_0000_0000_0000_0000 == (a + b) % 0x1_0000_0000_0000_0000
  {
  }

  lemma Weights(p: nat, low: nat, more: nat)
    ensures Times(p, low + 128 * more) == Times(p, low) + Times(128 * p, more)
  {
  }

  /** Bits gathered so far stay below the weight of the next byte. */
  lemma NoOverlap(p: nat, low: nat, acc: nat)
    requires acc < p && low < 128
    ensures acc + Times(p, low) < 128 * p
  {
    assert p * low <= p * 127;
  }

  /** One round of a decoding loop. */
  lemma {:induction false} NextByte(s: Bytes, i: nat, acc: nat, valen: nat)
    requires Halfway(s, i, acc, valen) && i < 10 && i < |s|
    ensures var valen' := Gather(valen, Pow(i), s[i]);
            && (s[i] >= 128 ==> Halfway(s, i + 1, acc + Times(Pow(i), Low(s[i])), valen'))
            && (s[i] < 128 ==> valen' == Low64(Decode(s, 10)) && Decode(s, 10).used == i + 1)
  {
    hide Decode, Pow, Times, Gather;
    NoOverlap(Pow(i), Low(s[i]), acc);
    hide Low;
    GatherMod(acc, Pow(i), s[i]);
    DecodeStep(s, i);
    PowStep(i);
    Weights(Pow(i), Low(s[i]), Decode(s[i + 1..], 9 - i).raw);
  }

  lemma Stopped(s: Bytes, i: nat, acc: nat, valen: nat)
    requires Halfway(s, i, acc, valen) && (i == 10 || i == |s|)
    ensures valen == Low64(Decode(s, 10)) && Decode(s, 10).used == i
  {
    hide Pow, Times, Decode;
    DecodeNone(s[i..], 10 - i);
    TimesZero(Pow(i));
  }

  lemma DecodeNone(s: Bytes, rounds: nat)
    requires rounds == 0 || s == []
    ensures Decode(s, rounds) == Read(0, 0)
  {
  }

  lemma TimesZero(p: nat)
    ensures Times(p, 0) == 0
  {
  }

  lemma PowStep(i: nat)
    ensures Pow(0) == 1 && Pow(i + 1) == 128 * Pow(i)
  {
  }

  /** Reads from a buffer that is known to hold a whole number. */
  method DecodeVarUnsignedInt64(enc: Bytes) returns (value: UInt64)
    requires |enc| >= 10 || exists i :: 0 <= i < |enc| && enc[i] < 128
    ensures value == Low64(Decode(enc, 10))
  {
    hide Halfway, Decode, Pow, Gather;
    value := 0;
    var i: nat, weight: nat := 0, 1;
    ghost var acc: nat := 0;
    Started(enc);
    PowStep(0);
    while i < 10
      invariant i <= 10 && i <= |enc| && weight == Pow(i) && Halfway(enc, i, acc, value)
      invariant forall j :: 0 <= j < i ==> enc[j] >= 128
    {
      NextByte(enc, i, acc, value);
      PowStep(i);
      var b := enc[i];
      value := Gather(value, weight, b);
      if b < 128 { return; }
      acc := acc + Times(weight, Low(b));
      i, weight := i + 1, 128 * weight;
    }
    Stopped(enc, i, acc, value);
  }

  /** Little endian, as on the machines the code is written for. */
  function Fixed(v: nat, n: nat): (s: Bytes)
    ensures |s| == n
  {
    if n == 0 then [] else [v % 256] + Fixed(v / 256, n - 1)
  }

  function FromFixed(s: Bytes): nat { if s == [] then 0 else s[0] + 256 * FromFixed(s[1..]) }

  function Pow256(k: nat): nat { if k == 0 then 1 else 256 * Pow256(k - 1) }

  lemma {:induction false} FixedRoundTrip(v: nat, n: nat)
    requires v < Pow256(n)
    ensures FromFixed(Fixed(v, n)) == v
  {
    if n > 0 {
      assert v / 256 < Pow256(n - 1);
      FixedRoundTrip(v / 256, n - 1);
    }
  }

  // ----- The bytes one by one -----

  lemma Monotone(d: nat, a: nat, b: nat)
    ensures a <= b ==> d * a <= d * b
  {
  }

  lemma DivIs(v: nat, d: nat, q: nat, r: nat)
    requires d > 0 && v == d * q + r && r < d
    ensures v / d == q
  {
    var x := v / d;
    Monotone(d, x + 1, q);
    Monotone(d, q + 1, x);
  }

  lemma Spread(a: nat, p: nat, q: nat, r: nat)
    ensures a * (p * q + r) == a * p * q + a * r
  {
  }

  lemma SmallSum(a: nat, p: nat, r: nat, b: nat)
    requires r < p && b < a
    ensures a * r + b < a * p
  {
    Monotone(a, r + 1, p);
  }

  lemma Together(v: nat, a: nat, p: nat, q: nat, r: nat, b: nat)
    requires v == a * (p * q + r) + b && r < p && b < a
    ensures a * p > 0 && v / (a * p) == q
  {
    Spread(a, p, q, r);
    SmallSum(a, p, r, b);
    DivIs(v, a * p, q, a * r + b);
  }

  lemma DivDiv(v: nat, a: nat, p: nat)
    requires a > 0 && p > 0
    ensures a * p > 0 && v / a / p == v / (a * p)
  {
    var x, b := v / a, v % a;
    DivMod(v, a);
    DivMod(x, p);
    Together(v, a, p, x / p, x % p, b);
  }

  lemma DivMod(v: nat, a: nat)
    requires a > 0
    ensures v == a * (v / a) + v % a
  {
  }

  /** Byte `i` has the bits from 7 * i on, and a mark if more follow. */
  lemma {:induction false} EncodeAt(v: nat, i: nat)
    requires i < |Encode(v)|
    ensures Encode(v)[i] == v / Pow(i) % 128 + if i < |Encode(v)| - 1 then 128 else 0
  {
    if i > 0 {
      EncodeAt(v / 128, i - 1);
      DivDiv(v, 128, Pow(i - 1));
      assert Pow(i) == 128 * Pow(i - 1);
    } else {
      assert Pow(0) == 1;
    }
  }

  /** Byte `i` of a fixed integer has the bits from 8 * i on. */
  lemma {:induction false} FixedAt(v: nat, n: nat, i: nat)
    requires i < n
    ensures Pow256(i) > 0 && Fixed(v, n)[i] == v / Pow256(i) % 256
  {
    if i > 0 {
      FixedAt(v / 256, n - 1, i - 1);
      DivDiv(v, 256, Pow256(i - 1));
    }
  }

  /** `EncodeFixed64BitInteger` and back. */
  lemma Fixed64RoundTrip(v: UInt64, rest: Bytes)
    ensures FromFixed((Fixed(v, 8) + rest)[..8]) == v
  {
    assert Pow256(8) == TWO_64 by {
      assert Pow256(2) == 0x1_0000;
      assert Pow256(4) == 0x1_0000_0000;
      assert Pow256(6) == 0x1_0000_0000_0000;
    }
    FixedRoundTrip(v, 8);
    assert (Fixed(v, 8) + rest)[..8] == Fixed(v, 8);
  }
}
