/**
 Conversion of a hexadecimal identifier to decimal on digit arrays
 (`iot_agent_print_uid_integer` in `src/platform/mcuxsdk/aknano_el2go.c`), with the 32-bit arithmetic of
 the target written out.
 */
module UidDecimal {
  import opened Bytes
  import HexCodec

  /** MAX_UID_DECIMAL_STRING_SIZE. */
  const DIGITS := 44

  // ---------- numbers as digit sequences, least significant digit first ----------

  /** `x` followed by `k` decimal zeros. */
  function Shift(x: nat, k: nat): nat {
    if k == 0 then x else 10 * Shift(x, k - 1)
  }

  lemma {:induction false} ShiftAdd(x: nat, y: nat, k: nat)
    ensures Shift(x + y, k) == Shift(x, k) + Shift(y, k)
  {
    if k > 0 {
      ShiftAdd(x, y, k - 1);
    }
  }

  lemma {:induction false} ShiftScale(c: nat, x: nat, k: nat)
    ensures Shift(c * x, k) == c * Shift(x, k)
  {
    if c > 0 {
      ShiftScale(c - 1, x, k);
      assert c * x == (c - 1) * x + x;
      ShiftAdd((c - 1) * x, x, k);
      assert c * Shift(x, k) == (c - 1) * Shift(x, k) + Shift(x, k);
    } else {
      ShiftZero(k);
    }
  }

  lemma {:induction false} ShiftZero(k: nat)
    ensures Shift(0, k) == 0
  {
    if k > 0 {
      ShiftZero(k - 1);
    }
  }

  lemma {:induction false} ShiftTen(x: nat, k: nat)
    ensures Shift(10 * x, k) == 10 * Shift(x, k) == Shift(x, k + 1)
  {
    if k > 0 {
      ShiftTen(x, k - 1);
    }
  }

  lemma ShiftMonotone(x: nat, y: nat, k: nat)
    requires x <= y
    ensures Shift(x, k) <= Shift(y, k)
  {
    ShiftAdd(x, y - x, k);
  }

  /** The number a sequence of (possibly large) decimal digits denotes. */
  function Number(digits: seq<nat>): nat {
    if digits == [] then 0
    else
      var n := |digits| - 1;
      Number(digits[..n]) + Shift(digits[n], n)
  }

  lemma NumberExtend(digits: seq<nat>, k: nat)
    requires k < |digits|
    ensures Number(digits[..k + 1]) == Number(digits[..k]) + Shift(digits[k], k)
  {
    assert digits[..k + 1][..k] == digits[..k];
  }

  predicate AreDigits(s: seq<nat>) {
    forall i | 0 <= i < |s| :: s[i] < 10
  }

  lemma {:induction false} NumberBound(digits: seq<nat>)
    requires AreDigits(digits)
    ensures Number(digits) < Shift(1, |digits|)
  {
    if digits != [] {
      var n := |digits| - 1;
      NumberBound(digits[..n]);
      ShiftMonotone(digits[n], 9, n);
      ShiftAdd(9, 1, n);
      ShiftTen(1, n);
    }
  }

  /** Number is linear in its digits. */
  lemma {:induction false} NumberLinear(sums: seq<nat>, weights: seq<nat>, c: nat, result: seq<nat>)
    requires |sums| == |weights| == |result|
    requires forall i | 0 <= i < |sums| :: result[i] == sums[i] + c * weights[i]
    ensures Number(result) == Number(sums) + c * Number(weights)
  {
    if sums != [] {
      var n := |sums| - 1;
      NumberLinear(sums[..n], weights[..n], c, result[..n]);
      ShiftAdd(sums[n], c * weights[n], n);
      ShiftScale(c, weights[n], n);
      assert c * (Number(weights[..n]) + Shift(weights[n], n)) == c * Number(weights[..n]) + c * Shift(weights[n], n);
    }
  }

  /** The same number, taken apart at its least significant digit. */
  lemma {:induction false} NumberFromLow(digits: seq<nat>)
    requires digits != []
    ensures Number(digits) == digits[0] + 10 * Number(digits[1..])
  {
    var n := |digits| - 1;
    if n > 0 {
      NumberFromLow(digits[..n]);
      assert digits[..n][1..] == digits[1..][..n - 1];
    }
  }

  /** Zeros at the most significant end do not count. */
  lemma NumberDropsZero(digits: seq<nat>, k: nat)
    requires k < |digits| && digits[k] == 0
    ensures Number(digits[..k + 1]) == Number(digits[..k])
  {
    NumberExtend(digits, k);
    ShiftZero(k);
  }

  /** The canonical decimal numeral, without leading zeros; empty for zero. */
  function Decimal(n: nat): seq<uint8> {
    if n == 0 then [] else Decimal(n / 10) + [48 + n % 10]
  }

  /** Reading decimal digits. */
  function DecimalValue(s: seq<uint8>): int {
    if s == [] then 0 else 10 * DecimalValue(s[..|s| - 1]) + (s[|s| - 1] - '0' as int)
  }

  /** The numeral is made of digits, does not begin with '0', and denotes the number. */
  lemma {:induction false} DecimalDenotes(n: nat)
    ensures DecimalValue(Decimal(n)) == n
    ensures forall i | 0 <= i < |Decimal(n)| :: '0' as int <= Decimal(n)[i] <= '9' as int
    ensures Decimal(n) == [] <==> n == 0
    ensures n > 0 ==> Decimal(n)[0] != '0' as int
  {
    if n > 0 {
      DecimalDenotes(n / 10);
      assert Decimal(n)[..|Decimal(n)| - 1] == Decimal(n / 10);
    }
  }

  /** Digits printed most significant first. */
  function Text(digits: seq<nat>): seq<uint8>
    requires AreDigits(digits)
  {
    seq(|digits|, k requires 0 <= k < |digits| => 48 + digits[|digits| - 1 - k])
  }

  lemma {:induction false} TextIsDecimal(digits: seq<nat>)
    requires AreDigits(digits) && (digits != [] ==> digits[|digits| - 1] != 0)
    ensures Text(digits) == Decimal(Number(digits))
    ensures digits != [] ==> Number(digits) > 0
  {
    if digits != [] {
      var rest := digits[1..];
      TextIsDecimal(rest);
      NumberFromLow(digits);
      assert Number(digits) / 10 == Number(rest) && Number(digits) % 10 == digits[0];
      assert Text(digits) == Text(rest) + [48 + digits[0]];
    }
  }

  // ---------- the value of the hexadecimal string ----------

  /** The value of a character; one that is not a hexadecimal digit counts as 0. */
  function HexValue(c: uint8): (v: nat)
    ensures v < 16
  {
    if IsHex(c) then HexDigitValue(c) else 0
  }

  function SixteenTo(e: nat): nat {
    if e == 0 then 1 else 16 * SixteenTo(e - 1)
  }

  /** The number a string denotes, most significant digit first. */
  function HexNumber(s: seq<uint8>): nat {
    if s == [] then 0 else HexValue(s[0]) * SixteenTo(|s| - 1) + HexNumber(s[1..])
  }

  /** The value of the last `i` characters grows by the next one to the left. */
  lemma HexNumberSuffix(s: seq<uint8>, i: nat)
    requires i < |s|
    ensures HexNumber(s[|s| - 1 - i..]) == HexValue(s[|s| - 1 - i]) * SixteenTo(i) + HexNumber(s[|s| - i..])
  {
    var t := s[|s| - 1 - i..];
    assert t[1..] == s[|s| - i..];
  }

  // What the string stands for: the bytes it is written for, in either case.

  /** The number that bytes denote, most significant first. */
  function BigEndian(b: seq<uint8>): nat {
    if b == [] then 0 else 256 * BigEndian(b[..|b| - 1]) + b[|b| - 1]
  }

  lemma {:induction false} HexNumberAppend(s: seq<uint8>, c: uint8)
    ensures HexNumber(s + [c]) == 16 * HexNumber(s) + HexValue(c)
  {
    if s == [] {
      assert SixteenTo(0) == 1;
    } else {
      assert (s + [c])[1..] == s[1..] + [c];
      HexNumberAppend(s[1..], c);
      assert HexValue(s[0]) * (16 * SixteenTo(|s| - 1)) == 16 * (HexValue(s[0]) * SixteenTo(|s| - 1));
    }
  }

  /** The hexadecimal text of bytes denotes their number. */
  lemma {:induction false} HexNumberOfText(b: seq<uint8>)
    ensures HexNumber(HexCodec.HexText(b)) == BigEndian(b)
  {
    if b != [] {
      var n := |b| - 1;
      HexNumberOfText(b[..n]);
      var early, high, low := HexCodec.HexText(b[..n]), HexCodec.HexChar(b[n] / 16), HexCodec.HexChar(b[n] % 16);
      TextOfLast(b);
      HexNumberAppend(early, high);
      HexNumberAppend(early + [high], low);
    }
  }

  lemma TextOfLast(b: seq<uint8>)
    requires b != []
    ensures var last := b[|b| - 1];
            HexCodec.HexText(b)
            == HexCodec.HexText(b[..|b| - 1]) + [HexCodec.HexChar(last / 16)] + [HexCodec.HexChar(last % 16)]
  {
    var n := |b| - 1;
    forall i | 0 <= i < 2 * n ensures HexCodec.Nibble(b, i) == HexCodec.Nibble(b[..n], i) {
    }
  }

  /** Lower case denotes the same number. */
  lemma {:induction false} HexNumberOfUpper(s: seq<uint8>)
    ensures HexNumber(HexCodec.Upper(s)) == HexNumber(s)
  {
    if s != [] {
      HexNumberOfUpper(s[1..]);
      assert HexCodec.Upper(s)[1..] == HexCodec.Upper(s[1..]);
      assert HexValue(HexCodec.UpperChar(s[0])) == HexValue(s[0]);
    }
  }

  /** Any other character counts as the digit 0. */
  lemma {:induction false} HexNumberOfNonDigits(s: seq<uint8>)
    ensures HexNumber(ZeroUnlessHex(s)) == HexNumber(s)
  {
    if s != [] {
      HexNumberOfNonDigits(s[1..]);
      assert ZeroUnlessHex(s)[1..] == ZeroUnlessHex(s[1..]);
      NonDigitIsZero(s[0]);
      SameDigit(s, ZeroUnlessHex(s));
    }
  }

  lemma NonDigitIsZero(c: uint8)
    ensures HexValue(ZeroUnlessDigit(c)) == HexValue(c)
  {
    HexCodec.HexDigitTable(c);
  }

  lemma SameDigit(s: seq<uint8>, t: seq<uint8>)
    requires |s| == |t| > 0 && HexValue(s[0]) == HexValue(t[0]) && HexNumber(s[1..]) == HexNumber(t[1..])
    ensures HexNumber(s) == HexNumber(t)
  {
  }

  function ZeroUnlessHex(s: seq<uint8>): seq<uint8> {
    seq(|s|, i requires 0 <= i < |s| => ZeroUnlessDigit(s[i]))
  }

  function ZeroUnlessDigit(c: uint8): uint8 {
    if c as char in HexCodec.UPPER_DIGITS || c as char in HexCodec.LOWER_DIGITS then c else '0' as int
  }

  lemma {:induction false} HexNumberBound(s: seq<uint8>)
    ensures HexNumber(s) < SixteenTo(|s|)
  {
    if s != [] {
      HexNumberBound(s[1..]);
      Scale(HexValue(s[0]), 15, SixteenTo(|s| - 1));
    }
  }

  lemma Scale(a: nat, b: nat, c: nat)
    requires a <= b
    ensures a * c <= b * c
  {
  }

  /** 10 to the power 44. */
  const MODULUS := 1_0000_0000_0000_0000_0000_0000_0000_0000_0000_0000_0000

  lemma {:induction false} SixteenToIncreases(m: nat, n: nat)
    requires m <= n
    ensures 1 <= SixteenTo(m) <= SixteenTo(n)
  {
    if m < n {
      SixteenToIncreases(m, n - 1);
    } else if m > 0 {
      SixteenToIncreases(m - 1, m - 1);
    }
  }

  /** 36 hexadecimal digits (18 bytes) fit in 44 decimal digits. */
  lemma ThirtySixDigitsFit(len: nat)
    requires len <= 36
    ensures SixteenTo(len) < MODULUS
  {
    SixteenToIncreases(len, 36);
    SixteenToTwelve();
    SixteenToSum(12, 12);
    SixteenToSum(24, 12);
  }

  lemma SixteenToTwelve()
    ensures SixteenTo(12) == 0x1_0000_0000_0000
  {
    assert SixteenTo(4) == 0x1_0000;
    SixteenToSum(4, 4);
    SixteenToSum(8, 4);
  }

  lemma {:induction false} SixteenToSum(m: nat, n: nat)
    ensures SixteenTo(m + n) == SixteenTo(m) * SixteenTo(n)
  {
    if n > 0 {
      SixteenToSum(m, n - 1);
    }
  }

  lemma ShiftIsMultiple(x: nat)
    ensures Shift(x, DIGITS) == x * MODULUS
  {
    ShiftScale(x, 1, DIGITS);
    assert Shift(1, 4) == 1_0000;
    ShiftTwice(1, 4, 4);
    ShiftScale(1_0000, 1, 4);
    ShiftTwice(1, 8, 3);
    ShiftScale(1_0000_0000, 1, 3);
    ShiftTwice(1, 11, 11);
    ShiftScale(1000_0000_0000, 1, 11);
    ShiftTwice(1, 22, 22);
    ShiftScale(100_0000_0000_0000_0000_0000, 1, 22);
  }

  lemma {:induction false} ShiftTwice(x: nat, j: nat, k: nat)
    ensures Shift(Shift(x, j), k) == Shift(x, j + k)
  {
    if k > 0 {
      ShiftTwice(x, j, k - 1);
    }
  }

  // ---------- the loops ----------

  /** First inner loop: adds `c` times the weights to the sums, digit by digit. */
  method AddContribution(sums: array<uint32>, weights: array<uint32>, c: uint32)
    requires sums.Length == weights.Length == DIGITS && sums != weights
    requires c < 16 && forall j | 0 <= j < DIGITS :: weights[j] < 10
    modifies sums
    ensures forall j | 0 <= j < DIGITS :: sums[j] == (old(sums[j]) + c * weights[j]) % WORD
  {
    for j := 0 to DIGITS
      invariant forall k | 0 <= k < j :: sums[k] == (old(sums[k]) + c * weights[k]) % WORD
      invariant forall k | j <= k < DIGITS :: sums[k] == old(sums[k])
    {
      sums[j] := AddWeighted(sums[j], c, weights[j]);
    }
  }

  method AddWeighted(sum: uint32, c: uint32, weight: uint32) returns (result: uint32)
    requires c < 16 && weight < 10
    ensures result == (sum + c * weight) % WORD
  {
    Scale(c, 15, weight);
    var contribution := c * weight % WORD;
    result := (sum + contribution) % WORD;
  }

  /** Second inner loop: multiplies the weights by 16, carrying from digit to digit. Every weight stays
      a digit and no carry exceeds 15. */
  method MultiplyBySixteen(weights: array<uint32>) returns (ghost carry: nat)
    requires weights.Length == DIGITS && forall j | 0 <= j < DIGITS :: weights[j] < 10
    modifies weights
    ensures forall j | 0 <= j < DIGITS :: weights[j] < 10
    ensures carry <= 15
    ensures Number(weights[..]) + Shift(carry, DIGITS) == 16 * Number(old(weights[..]))
  {
    var rem: uint32 := 0;
    ghost var was: seq<nat> := weights[..];
    ghost var done: seq<nat> := [];
    for k := 0 to DIGITS
      invariant rem <= 15 && |done| == k
      invariant forall j | 0 <= j < k :: weights[j] == done[j] < 10
      invariant forall j | k <= j < DIGITS :: weights[j] == was[j] < 10
      invariant Number(done) + Shift(rem, k) == 16 * Number(was[..k])
    {
      ghost var before := rem;
      var digit;
      digit, rem := MultiplyDigit(weights[k], rem);
      CarryStep(done, digit, before, rem, was, k);
      weights[k] := digit;
      done := done + [digit];
    }
    assert done == weights[..] && was[..DIGITS] == was;
    carry := rem;
  }

  /** `rem + (weight << 4)`, split into a digit and the next carry. */
  method MultiplyDigit(weight: uint32, rem: uint32) returns (digit: uint32, next: uint32)
    requires weight < 10 && rem <= 15
    ensures digit + 10 * next == rem + 16 * weight && digit < 10 && next <= 15
  {
    digit := (rem + weight * 16 % WORD) % WORD;
    next := digit / 10;
    digit := digit % 10;
  }

  lemma CarryStep(before: seq<nat>, digit: nat, rem: nat, next: nat, was: seq<nat>, k: nat)
    requires |before| == k < |was|
    requires Number(before) + Shift(rem, k) == 16 * Number(was[..k])
    requires digit + 10 * next == rem + 16 * was[k]
    ensures Number(before + [digit]) + Shift(next, k + 1) == 16 * Number(was[..k + 1])
  {
    NumberExtend(was, k);
    assert (before + [digit])[..k] == before;
    ShiftTen(next, k);
    ShiftAdd(digit, 10 * next, k);
    ShiftAdd(rem, 16 * was[k], k);
    ShiftScale(16, was[k], k);
  }

  /** Last loop: propagates the carries of the sums and writes the digits from the right. The digits
      denote the sums (up to the last carry) if those are small enough not to overflow. */
  method WriteDigits(sums: array<uint32>, ghost bound: nat, decimalString: array<uint8>)
    returns (ghost digits: seq<nat>, ghost carry: nat)
    requires sums.Length == DIGITS == decimalString.Length && sums as object != decimalString
    requires forall j | 0 <= j < DIGITS :: decimalString[j] == 48
    modifies decimalString
    ensures |digits| == DIGITS && AreDigits(digits) && decimalString[..] == Text(digits)
    ensures NoSumOverflows(sums[..], bound) ==> Number(digits) + Shift(carry, DIGITS) == Number(sums[..])
  {
    var rem: uint32 := 0;
    digits := [];
    ghost var s: seq<nat> := sums[..];
    for i := 0 to DIGITS
      invariant |digits| == i && AreDigits(digits)
      invariant forall k | 0 <= k < DIGITS - i :: decimalString[k] == 48
      invariant forall k | DIGITS - i <= k < DIGITS :: decimalString[k] == 48 + digits[DIGITS - 1 - k]
      invariant NoSumOverflows(s, bound) ==> rem <= bound && Number(digits) + Shift(rem, i) == Number(s[..i])
    {
      var index := DIGITS - 1 - i;
      var total := (rem + sums[i]) % WORD;
      decimalString[index] := decimalString[index] + total % 10;
      if NoSumOverflows(s, bound) {
        SumStep(digits, total % 10, rem, total / 10, s, i);
      }
      digits := digits + [total % 10];
      rem := total / 10;
    }
    assert s[..DIGITS] == s;
    carry := rem;
  }

  ghost predicate NoSumOverflows(sums: seq<nat>, bound: nat) {
    10 * bound < WORD && forall j | 0 <= j < |sums| :: sums[j] <= 9 * bound
  }

  lemma SumStep(before: seq<nat>, digit: nat, rem: nat, next: nat, s: seq<nat>, k: nat)
    requires |before| == k < |s|
    requires Number(before) + Shift(rem, k) == Number(s[..k])
    requires digit + 10 * next == rem + s[k]
    ensures Number(before + [digit]) + Shift(next, k + 1) == Number(s[..k + 1])
  {
    NumberExtend(s, k);
    assert (before + [digit])[..k] == before;
    ShiftTen(next, k);
    ShiftAdd(digit, 10 * next, k);
    ShiftAdd(rem, s[k], k);
  }

  /** Skips the leading zeros of the printed digits. */
  method SkipZeros(decimalString: array<uint8>, ghost digits: seq<nat>) returns (printed: seq<uint8>)
    requires decimalString.Length == DIGITS == |digits| && AreDigits(digits) && decimalString[..] == Text(digits)
    ensures printed == Decimal(Number(digits))
  {
    var start := 0;
    assert digits[..DIGITS] == digits;
    while start < DIGITS && decimalString[start] == 48
      invariant 0 <= start <= DIGITS
      invariant Number(digits[..DIGITS - start]) == Number(digits)
    {
      assert decimalString[..][start] == 48 + digits[DIGITS - 1 - start];
      NumberDropsZero(digits, DIGITS - 1 - start);
      start := start + 1;
    }
    printed := decimalString[start..];
    ghost var significant := digits[..DIGITS - start];
    assert start < DIGITS ==> decimalString[..][start] == 48 + digits[DIGITS - 1 - start];
    TextIsDecimal(significant);
    assert printed == Text(significant);
  }

  lemma UniqueRemainder(n: nat, q: nat, r: nat)
    requires n == r + q * MODULUS && r < MODULUS
    ensures n % MODULUS == r
  {
  }

  /** The sums after one more character, in terms of what they stood for before. */
  lemma AccumulateStep(sums: nat, weights: nat, c: nat, next: nat, qs: nat, qw: nat, value: nat, power: nat)
    requires sums + qs * MODULUS == value && weights + qw * MODULUS == power && next == sums + c * weights
    ensures next + (qs + c * qw) * MODULUS == c * power + value
  {
    assert c * (weights + qw * MODULUS) == c * weights + c * qw * MODULUS;
  }

  /** One pass of the outer loop: the character at `i` from the right joins the sums, and the weights
      become those of the next power of 16. */
  method AddCharacter(hexString: seq<uint8>, i: nat, sums: array<uint32>, weights: array<uint32>,
                      ghost qs: nat, ghost qw: nat)
    returns (ghost qs': nat, ghost qw': nat)
    requires sums.Length == weights.Length == DIGITS && sums != weights && i < |hexString|
    requires forall j | 0 <= j < DIGITS :: weights[j] < 10
    requires Number(weights[..]) + qw * MODULUS == SixteenTo(i)
    modifies sums, weights
    ensures forall j | 0 <= j < DIGITS :: weights[j] < 10
    ensures Number(weights[..]) + qw' * MODULUS == SixteenTo(i + 1)
    ensures 150 * |hexString| < WORD && (forall j | 0 <= j < DIGITS :: old(sums[j]) <= 135 * i)
              && Number(old(sums[..])) + qs * MODULUS == HexNumber(hexString[|hexString| - i..]) ==>
              && (forall j | 0 <= j < DIGITS :: sums[j] <= 135 * (i + 1))
              && Number(sums[..]) + qs' * MODULUS == HexNumber(hexString[|hexString| - i - 1..])
  {
    var c := HexValue(hexString[|hexString| - 1 - i]);
    ghost var was, w: seq<nat> := sums[..], weights[..];
    AddContribution(sums, weights, c);
    ghost var now: seq<nat> := sums[..];
    qs' := qs + c * qw;
    if 150 * |hexString| < WORD && (forall j | 0 <= j < DIGITS :: was[j] <= 135 * i)
       && Number(was) + qs * MODULUS == HexNumber(hexString[|hexString| - i..]) {
      forall j | 0 <= j < DIGITS ensures now[j] == was[j] + c * w[j] <= 135 * (i + 1) {
        NoOverflow(was[j], c, w[j], i, |hexString|);
      }
      NumberLinear(was, w, c, now);
      HexNumberSuffix(hexString, i);
      AccumulateStep(Number(was), Number(w), c, Number(now), qs, qw,
                     HexNumber(hexString[|hexString| - i..]), SixteenTo(i));
    }
    ghost var carry := MultiplyBySixteen(weights);
    assert sums[..] == now;
    ShiftIsMultiple(carry);
    qw' := 16 * qw + carry;
  }

  lemma NoOverflow(sum: nat, c: nat, weight: nat, i: nat, len: nat)
    requires sum <= 135 * i && c <= 15 && weight <= 9 && i < len && 150 * len < WORD
    ensures (sum + c * weight) % WORD == sum + c * weight <= 135 * (i + 1)
  {
    Scale(c, 15, weight);
  }

  /** The outer loop: the weighted sums of all characters. */
  method SumCharacters(hexString: seq<uint8>) returns (sums: array<uint32>, ghost qs: nat)
    ensures fresh(sums) && sums.Length == DIGITS
    ensures 150 * |hexString| < WORD ==>
              NoSumOverflows(sums[..], 15 * |hexString|) && Number(sums[..]) + qs * MODULUS == HexNumber(hexString)
  {
    var weights := new uint32[DIGITS](i => if i == 0 then 1 else 0);
    sums := new uint32[DIGITS](_ => 0);
    qs := 0;
    ghost var qw: nat := 0;
    InitialNumbers(sums[..], weights[..]);
    var len := |hexString|;
    for i := 0 to len
      invariant forall j | 0 <= j < DIGITS :: weights[j] < 10
      invariant Number(weights[..]) + qw * MODULUS == SixteenTo(i)
      invariant 150 * len < WORD ==>
                  && (forall j | 0 <= j < DIGITS :: sums[j] <= 135 * i)
                  && Number(sums[..]) + qs * MODULUS == HexNumber(hexString[len - i..])
    {
      qs, qw := AddCharacter(hexString, i, sums, weights, qs, qw);
    }
    assert hexString[len - len..] == hexString;
  }

  /** `iot_agent_print_uid_integer`: the string printed is the decimal numeral of the hexadecimal string
      modulo 10^44, as long as no 32-bit sum can overflow; for at most 36 characters it is exact, and
      nothing is carried out of the last digit. */
  method PrintUidInteger(hexString: seq<uint8>) returns (printed: seq<uint8>, ghost carry: nat)
    ensures 150 * |hexString| < WORD ==> printed == Decimal(HexNumber(hexString) % MODULUS)
    ensures |hexString| <= 36 ==> printed == Decimal(HexNumber(hexString)) && carry == 0
    ensures forall b | hexString == HexCodec.HexText(b) && |b| <= 18 :: printed == Decimal(BigEndian(b))
  {
    var decimalString := new uint8[DIGITS](_ => 48);
    ghost var qs;
    var sums;
    sums, qs := SumCharacters(hexString);
    ghost var s: seq<nat> := sums[..];
    ghost var digits;
    digits, carry := WriteDigits(sums, 15 * |hexString|, decimalString);
    printed := SkipZeros(decimalString, digits);
    if 150 * |hexString| < WORD {
      DigitsAreRemainder(HexNumber(hexString), digits, carry, qs, Number(s));
      if |hexString| <= 36 {
        ExactUpToThirtySix(hexString, Number(digits), carry, qs);
      }
    }
    forall b | hexString == HexCodec.HexText(b) ensures HexNumber(hexString) == BigEndian(b) {
      HexNumberOfText(b);
    }
  }

  /** Up to 36 characters denote less than 10^44, so the digits are exact: no multiple of 10^44 is carried
      out of the sums, nor was one lost from the weights. */
  lemma ExactUpToThirtySix(hexString: seq<uint8>, digits: nat, carry: nat, qs: nat)
    requires |hexString| <= 36 && digits + Shift(carry, DIGITS) + qs * MODULUS == HexNumber(hexString)
    ensures carry == 0 && qs == 0 && digits == HexNumber(hexString)
  {
    HexNumberBound(hexString);
    ThirtySixDigitsFit(|hexString|);
    ShiftIsMultiple(carry);
  }

  lemma DigitsAreRemainder(value: nat, digits: seq<nat>, carry: nat, qs: nat, sums: nat)
    requires |digits| == DIGITS && AreDigits(digits)
    requires Number(digits) + Shift(carry, DIGITS) == sums && sums + qs * MODULUS == value
    ensures value % MODULUS == Number(digits)
  {
    ShiftIsMultiple(carry);
    ShiftIsMultiple(1);
    NumberBound(digits);
    UniqueRemainder(value, carry + qs, Number(digits));
  }

  lemma InitialNumbers(sums: seq<nat>, weights: seq<nat>)
    requires |sums| == |weights| == DIGITS
    requires forall j | 0 <= j < DIGITS :: sums[j] == 0 && weights[j] == if j == 0 then 1 else 0
    ensures Number(sums) == 0 && Number(weights) == 1
  {
    NumberFromLow(weights);
    NumberZero(sums);
    NumberZero(weights[1..]);
  }

  lemma {:induction false} NumberZero(digits: seq<nat>)
    requires forall i | 0 <= i < |digits| :: digits[i] == 0
    ensures Number(digits) == 0
  {
    if digits != [] {
      NumberZero(digits[..|digits| - 1]);
    }
  }
}
