/** Decimal numbers as the C and C++ library functions print and read them. */
module Decimal {
  import opened Wrappers
  import opened ByteStrings

  const INT64_MAX: int := 0x7FFF_FFFF_FFFF_FFFF
  const INT64_MIN: int := -0x8000_0000_0000_0000
  const TWO_64: int := 0x1_0000_0000_0000_0000
  const INT32_MAX: int := 0x7FFF_FFFF
  const INT32_MIN: int := -0x8000_0000

  /** An unsigned 64-bit number. */
  type UInt64 = x: int | 0 <= x < 0x1_0000_0000_0000_0000

  /** The same 64 bits without a sign, and with one. */
  function ToUnsigned(n: int): (v: UInt64)
    requires INT64_MIN <= n <= INT64_MAX
  {
    if n < 0 then n + TWO_64 else n
  }

  function ToSigned(v: UInt64): (n: int)
    ensures INT64_MIN <= n <= INT64_MAX
  {
    if v > INT64_MAX then v - TWO_64 else v
  }

  predicate IsDigit(b: byte) { 48 <= b <= 57 }

  predicate IsSpace(b: byte) { b == 32 || 9 <= b <= 13 }

  /** Digits of a natural number, most significant first. */
  function DecNat(n: nat): (s: Bytes)
    ensures |s| >= 1 && forall i :: 0 <= i < |s| ==> IsDigit(s[i])
  {
    if n < 10 then [48 + n] else DecNat(n / 10) + [48 + n % 10]
  }

  /** `std::to_string`. */
  function Dec(v: int): (s: Bytes)
    ensures |s| >= 1
  {
    if v < 0 then [45] + DecNat(-v) else DecNat(v)
  }

  /** Value of a digit string. */
  function DigitsValue(s: Bytes): (n: nat)
    requires forall i :: 0 <= i < |s| ==> IsDigit(s[i])
  {
    if s == [] then 0
    else
      assert IsDigit(s[|s| - 1]);
      10 * DigitsValue(s[..|s| - 1]) + (s[|s| - 1] as int - 48)
  }

  /** First position at or behind `i` that holds no digit. */
  function DigitsEnd(s: Bytes, i: nat): (e: nat)
    requires i <= |s|
    ensures i <= e <= |s|
    ensures forall k :: i <= k < e ==> IsDigit(s[k])
    ensures e < |s| ==> !IsDigit(s[e])
    decreases |s| - i
  {
    if i < |s| && IsDigit(s[i]) then DigitsEnd(s, i + 1) else i
  }

  function SkipSpace(s: Bytes, i: nat): (e: nat)
    requires i <= |s|
    ensures i <= e <= |s|
    decreases |s| - i
  {
    if i < |s| && IsSpace(s[i]) then SkipSpace(s, i + 1) else i
  }

  datatype Scan = Scan(value: int, step: nat)

  /** The integer at the front of `s` and the number of bytes read: white space, one sign, digits.
      Without a digit nothing is read. */
  function ScanInt(s: Bytes): (r: Scan)
    ensures r.step <= |s|
  {
    var i := SkipSpace(s, 0);
    var signed := i < |s| && (s[i] == 43 || s[i] == 45);
    var j := if signed then i + 1 else i;
    var e := DigitsEnd(s, j);
    if e == j then Scan(0, 0)
    else
      var n: int := DigitsValue(s[j..e]);
      Scan(if signed && s[i] == 45 then -n else n, e)
  }

  /** `strtoll`: the scanned value, clamped to 64 bits. */
  function StrToLL(s: Bytes): (r: Scan)
    ensures INT64_MIN <= r.value <= INT64_MAX && r.step <= |s|
  {
    var r := ScanInt(s);
    if r.value > INT64_MAX then r.(value := INT64_MAX)
    else if r.value < INT64_MIN then r.(value := INT64_MIN)
    else r
  }

  /** `CanConvertToInt64` and `CanConvertToInt32`: convert, print back, compare. */
  function Canonical(s: Bytes, lo: int, hi: int): (r: Option<int>) {
    if s == [] || |s| > 20 then None
    else
      var sc := ScanInt(s);
      if sc.step > 0 && lo <= sc.value <= hi && Dec(sc.value) == s then Some(sc.value) else None
  }

  lemma {:induction false} DigitsValueOfDec(n: nat)
    ensures DigitsValue(DecNat(n)) == n
  {
    if n >= 10 {
      DigitsValueOfDec(n / 10);
      assert DecNat(n)[..|DecNat(n)| - 1] == DecNat(n / 10);
    }
  }

  lemma DigitsEndIs(s: Bytes, i: nat, e: nat)
    requires i <= e <= |s| && (forall k :: i <= k < e ==> IsDigit(s[k])) && (e < |s| ==> !IsDigit(s[e]))
    ensures DigitsEnd(s, i) == e
  {
  }

  /** Reading back a printed number gives the number and stops behind it, whatever follows. */
  lemma ScanDec(v: int, rest: Bytes)
    requires rest == [] || !IsDigit(rest[0])
    ensures ScanInt(Dec(v) + rest) == Scan(v, |Dec(v)|)
  {
    var n := if v < 0 then -v else v;
    var s, j := Dec(v) + rest, if v < 0 then 1 else 0;
    assert IsDigit(DecNat(n)[0]);
    assert SkipSpace(s, 0) == 0;
    assert s[j..|Dec(v)|] == DecNat(n);
    forall k | j <= k < |Dec(v)| ensures IsDigit(s[k]) { assert s[k] == DecNat(n)[k - j]; }
    DigitsEndIs(s, j, |Dec(v)|);
    DigitsValueOfDec(n);
  }

  // ----- Numbers in terms of single digits -----

  predicate AllDigits(d: Bytes) { forall i :: 0 <= i < |d| ==> 48 <= d[i] <= 57 }

  /** Each digit at its weight: the sum of (d[i] - 48) * 10^(|d| - 1 - i). */
  function Weighted(d: Bytes): nat
    requires AllDigits(d)
  {
    if d == [] then 0 else (d[0] as int - 48) * Pow10(|d| - 1) + Weighted(d[1..])
  }

  /** The decimal digits of `n`, without a leading zero. */
  predicate IsDecimal(d: Bytes, n: nat) {
    |d| >= 1 && AllDigits(d) && (d[0] == 48 ==> |d| == 1) && Weighted(d) == n
  }

  lemma {:induction false} WeightedSnoc(d: Bytes, x: byte)
    requires AllDigits(d) && 48 <= x <= 57
    ensures Weighted(d + [x]) == 10 * Weighted(d) + (x as int - 48)
  {
    var all := d + [x];
    if d == [] {
      assert all[1..] == [] && Pow10(0) == 1;
    } else {
      assert all[1..] == d[1..] + [x];
      WeightedSnoc(d[1..], x);
      assert Pow10(|d|) == 10 * Pow10(|d| - 1);
      TenTimes(d[0] as int - 48, Pow10(|d| - 1));
    }
  }

  lemma TenTimes(a: nat, p: nat)
    ensures a * (10 * p) == 10 * (a * p)
  {
  }

  lemma {:induction false} ValueIsWeighted(d: Bytes)
    requires AllDigits(d)
    ensures DigitsValue(d) == Weighted(d)
  {
    if d != [] {
      var init := d[..|d| - 1];
      assert d == init + [d[|d| - 1]];
      ValueIsWeighted(init);
      WeightedSnoc(init, d[|d| - 1]);
    }
  }

  lemma {:induction false} FirstDigit(n: nat)
    ensures DecNat(n)[0] == 48 ==> n == 0
  {
    if n >= 10 { FirstDigit(n / 10); }
  }

  lemma {:induction false} WeightedPositive(d: Bytes)
    requires AllDigits(d) && d != [] && d[0] != 48
    ensures Weighted(d) >= 1
  {
    assert (d[0] as int - 48) * Pow10(|d| - 1) >= 1 by { PowPositive(|d| - 1); }
  }

  lemma {:induction false} PowPositive(k: nat)
    ensures Pow10(k) >= 1
  {
    if k > 0 { PowPositive(k - 1); }
  }

  /** What is printed for a number is its decimal digits, and nothing else is. */
  lemma {:induction false} DecimalIff(d: Bytes, n: nat)
    ensures d == DecNat(n) <==> IsDecimal(d, n)
    decreases n
  {
    if d == DecNat(n) {
      DigitsValueOfDec(n);
      ValueIsWeighted(d);
      FirstDigit(n);
    }
    if IsDecimal(d, n) { DecimalIsPrinted(d, n); }
  }

  lemma {:induction false} DecimalIsPrinted(d: Bytes, n: nat)
    requires IsDecimal(d, n)
    ensures d == DecNat(n)
    decreases |d|
  {
    var init, x := d[..|d| - 1], d[|d| - 1];
    assert d == init + [x];
    WeightedSnoc(init, x);
    if init == [] {
      assert Weighted(init) == 0;
    } else {
      WeightedPositive(init);
      DecimalIsPrinted(init, n / 10);
    }
  }

  /** A sign is printed for negative numbers only. */
  lemma DecIs(v: int)
    ensures v >= 0 ==> IsDecimal(Dec(v), v)
    ensures v < 0 ==> Dec(v)[0] == 45 && IsDecimal(Dec(v)[1..], -v)
  {
    if v >= 0 {
      DecimalIff(Dec(v), v);
    } else {
      assert Dec(v)[1..] == DecNat(-v);
      DecimalIff(Dec(v)[1..], -v);
    }
  }

  /** What reading makes of a text: white space, a sign or none, digits. */
  lemma ScanText(space: Bytes, sign: Bytes, d: Bytes, rest: Bytes)
    requires forall i :: 0 <= i < |space| ==> space[i] == 32 || 9 <= space[i] <= 13
    requires sign == [] || sign == [43] || sign == [45]
    requires d != [] && AllDigits(d) && (rest == [] || !(48 <= rest[0] <= 57))
    ensures var n: int := Weighted(d);
            ScanInt(space + sign + d + rest) == Scan(if sign == [45] then -n else n, |space| + |sign| + |d|)
  {
    var s, i := space + sign + d + rest, |space|;
    var j := i + |sign|;
    SpaceInFront(space, sign + (d + rest));
    Reassociate(space, sign, d, rest);
    SignIs(sign);
    hide ScanInt, SkipSpace, DigitsEnd, DigitsValue, Weighted, IsDigit, IsSpace;
    TextAt(space, sign, d, rest);
    ScanAt(s, i, j, d);
  }

  lemma ScanAt(s: Bytes, i: nat, j: nat, d: Bytes)
    requires d != [] && AllDigits(d) && i <= j && j + |d| <= |s| && s[j..j + |d|] == d
    requires (forall k :: 0 <= k < i ==> IsSpace(s[k])) && !IsSpace(s[i])
    requires (forall k :: j <= k < j + |d| ==> IsDigit(s[k])) && (j + |d| < |s| ==> !IsDigit(s[j + |d|]))
    requires j == i + if s[i] == 43 || s[i] == 45 then 1 else 0
    ensures var n: int := Weighted(d); ScanInt(s) == Scan(if j > i && s[i] == 45 then -n else n, j + |d|)
  {
    hide ScanInt, SkipSpace, DigitsEnd, DigitsValue, Weighted, IsDigit, IsSpace;
    SpaceEnds(s, 0, i);
    DigitsEndIs(s, j, j + |d|);
    ValueIsWeighted(d);
    ScanIs(s, i, j, d);
  }

  lemma Reassociate(a: Bytes, b: Bytes, c: Bytes, d: Bytes)
    ensures a + b + c + d == a + (b + (c + d))
  {
    assert a + b + c + d == a + b + (c + d);
  }

  lemma SpaceInFront(space: Bytes, more: Bytes)
    requires forall i :: 0 <= i < |space| ==> space[i] == 32 || 9 <= space[i] <= 13
    ensures forall k :: 0 <= k < |space| ==> IsSpace((space + more)[k])
  {
  }

  lemma SignIs(sign: Bytes)
    requires sign == [] || sign == [43] || sign == [45]
    ensures (sign == [45] <==> sign != [] && sign[0] == 45) && (sign != [] ==> sign[0] == 43 || sign[0] == 45)
    ensures !IsDigit(43) && !IsDigit(45)
  {
  }

  lemma TextAt(space: Bytes, sign: Bytes, d: Bytes, rest: Bytes)
    requires sign == [] || sign == [43] || sign == [45]
    requires d != [] && AllDigits(d) && (rest == [] || !(48 <= rest[0] <= 57))
    ensures var s, i, j := space + sign + d + rest, |space|, |space| + |sign|;
      && i <= j < j + |d| <= |s| && s[j..j + |d|] == d && !IsSpace(s[i])
      && (if sign == [] then IsDigit(s[i]) else s[i] == sign[0])
      && (forall k :: j <= k < j + |d| ==> IsDigit(s[k])) && (j + |d| < |s| ==> !IsDigit(s[j + |d|]))
  {
    var s, j := space + sign + d + rest, |space| + |sign|;
    assert s[j..j + |d|] == d;
    assert forall k :: j <= k < j + |d| ==> s[k] == d[k - j];
    if rest != [] { assert s[j + |d|] == rest[0]; }
    if sign != [] { assert s[|space|] == sign[0]; }
  }

  lemma ScanIs(s: Bytes, i: nat, j: nat, d: Bytes)
    requires d != [] && AllDigits(d) && i <= j && j + |d| <= |s| && s[j..j + |d|] == d
    requires SkipSpace(s, 0) == i && DigitsEnd(s, j) == j + |d|
    requires j == i + if i < |s| && (s[i] == 43 || s[i] == 45) then 1 else 0
    ensures var n: int := DigitsValue(d); ScanInt(s) == Scan(if j > i && s[i] == 45 then -n else n, j + |d|)
  {
    hide SkipSpace, DigitsEnd, DigitsValue;
  }

  lemma {:induction false} SpaceEnds(s: Bytes, i: nat, e: nat)
    requires i <= e < |s| && (forall k :: i <= k < e ==> IsSpace(s[k])) && !IsSpace(s[e])
    ensures SkipSpace(s, i) == e
    decreases e - i
  {
    if i < e { SpaceEnds(s, i + 1, e); }
  }

  lemma DecInjective(a: int, b: int)
    requires Dec(a) == Dec(b)
    ensures a == b
  {
    ScanDec(a, []);
    ScanDec(b, []);
    assert Dec(a) + [] == Dec(a) == Dec(b) + [];
  }

  lemma {:induction false} DecNatLength(n: nat, bound: nat, digits: nat)
    requires digits >= 1 && bound == Pow10(digits) && n < bound
    ensures |DecNat(n)| <= digits
  {
    if n >= 10 {
      assert bound == 10 * Pow10(digits - 1);
      DecNatLength(n / 10, Pow10(digits - 1), digits - 1);
    }
  }

  function Pow10(k: nat): nat { if k == 0 then 1 else 10 * Pow10(k - 1) }

  /** 64-bit numbers print in at most 20 characters. */
  lemma DecLength(v: int)
    requires INT64_MIN <= v <= INT64_MAX
    ensures |Dec(v)| <= 20
  {
    assert Pow10(19) == 10_000_000_000_000_000_000 by {
      assert Pow10(5) == 100_000;
      assert Pow10(10) == 10_000_000_000;
      assert Pow10(15) == 1_000_000_000_000_000;
    }
    DecNatLength(if v < 0 then -v else v, Pow10(19), 19);
  }

  /** A string converts to `v` exactly when it is the printed form of a `v` in range. */
  lemma CanonicalIff(s: Bytes, lo: int, hi: int, v: int)
    requires INT64_MIN <= lo && hi <= INT64_MAX
    ensures Canonical(s, lo, hi) == Some(v) <==> s == Dec(v) && lo <= v <= hi
  {
    if s == Dec(v) && lo <= v <= hi {
      DecLength(v);
      ScanDec(v, []);
      assert s + [] == s;
    }
  }

  lemma CanonicalNone(s: Bytes, lo: int, hi: int)
    requires INT64_MIN <= lo && hi <= INT64_MAX
    ensures Canonical(s, lo, hi).None? <==> forall v :: lo <= v <= hi ==> s != Dec(v)
  {
    if Canonical(s, lo, hi).None? {
      forall v | lo <= v <= hi ensures s != Dec(v) { CanonicalIff(s, lo, hi, v); }
    } else {
      CanonicalIff(s, lo, hi, Canonical(s, lo, hi).value);
    }
  }

  lemma {:induction false} SkipSpaceStops(s: Bytes, rest: Bytes, i: nat)
    requires i <= |s| && (rest == [] || !IsSpace(rest[0]))
    ensures SkipSpace(s + rest, i) == SkipSpace(s, i)
    decreases |s| - i
  {
    if i < |s| && IsSpace(s[i]) { SkipSpaceStops(s, rest, i + 1); }
  }

  /** A NUL behind the bytes ends the number like the end of the bytes does. */
  lemma ScanStopsAtNul(s: Bytes, rest: Bytes)
    ensures ScanInt(s + [0] + rest) == ScanInt(s)
  {
    hide SkipSpace, DigitsEnd, DigitsValue;
    var more := [0] + rest;
    assert s + [0] + rest == s + more;
    SkipSpaceStops(s, more, 0);
    var i := SkipSpace(s, 0);
    var j := if i < |s| && (s[i] == 43 || s[i] == 45) then i + 1 else i;
    DigitsEndIs(s + more, j, DigitsEnd(s, j));
    assert (s + more)[j..DigitsEnd(s, j)] == s[j..DigitsEnd(s, j)];
  }
}
