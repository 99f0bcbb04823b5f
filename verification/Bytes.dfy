/**
 Machine integers, little-endian words, C strings and hexadecimal digits, as the C code lays them out in
 memory.
 */
module Bytes {

  const UINT_MAX := 0xFFFF_FFFF
  const WORD := 0x1_0000_0000

  type uint8 = b: int | 0 <= b < 256
  type uint32 = w: int | 0 <= w < WORD
  type int32 = w: int | -0x8000_0000 <= w < 0x8000_0000

  /** Bitwise AND of two bytes, bit by bit: what programming does to a NOR flash cell. */
  function And(a: uint8, b: uint8): uint8 {
    AndBits(a, b, 8)
  }

  function AndBits(a: nat, b: nat, bits: nat): (r: nat)
    ensures r <= a
  {
    if bits == 0 then 0
    else (if a % 2 == 1 && b % 2 == 1 then 1 else 0) + 2 * AndBits(a / 2, b / 2, bits - 1)
  }

  /** Programming an erased cell stores the byte itself. */
  lemma AndErased(x: uint8)
    ensures And(255, x) == x
  {
    AllOnes(x, 255, 8);
  }

  lemma {:induction false} AllOnes(x: nat, ones: nat, bits: nat)
    requires bits <= 8 && ones == [0, 1, 3, 7, 15, 31, 63, 127, 255][bits] && x <= ones
    ensures AndBits(ones, x, bits) == x
  {
    if bits > 0 {
      AllOnes(x / 2, ones / 2, bits - 1);
    }
  }

  /** Bitwise OR of two bytes, bit by bit. */
  function Or(a: uint8, b: uint8): uint8 {
    assert Pow2(8) == 256;
    OrBits(a, b, 8)
  }

  function Pow2(e: nat): nat {
    if e == 0 then 1 else 2 * Pow2(e - 1)
  }

  function OrBits(a: nat, b: nat, bits: nat): (r: nat)
    ensures r < Pow2(bits)
  {
    if bits == 0 then 0
    else (if a % 2 == 1 || b % 2 == 1 then 1 else 0) + 2 * OrBits(a / 2, b / 2, bits - 1)
  }

  function Fill(n: nat, b: uint8): (s: seq<uint8>)
    ensures |s| == n && forall i | 0 <= i < n :: s[i] == b
  {
    seq(n, _ => b)
  }

  /** The four bytes of a 32-bit word on a little-endian machine. */
  function Word(w: uint32): (s: seq<uint8>)
    ensures |s| == 4
  {
    [w % 256, w / 256 % 256, w / 0x1_0000 % 256, w / 0x100_0000]
  }

  function FromWord(s: seq<uint8>): uint32
    requires |s| == 4
  {
    s[0] as int + 256 * s[1] as int + 0x1_0000 * s[2] as int + 0x100_0000 * s[3] as int
  }

  /** The low and the high half of a word, in its bytes. */
  lemma HalvesOfWord(w: uint32)
    ensures Word(w)[0] as int + 256 * Word(w)[1] as int == w % 0x1_0000
    ensures Word(w)[2] as int + 256 * Word(w)[3] as int == w / 0x1_0000
  {
    var low, high := w % 0x1_0000, w / 0x1_0000;
    assert w == low + 0x1_0000 * high;
    assert low % 256 == w % 256 && low / 256 == w / 256 % 256;
    assert high % 256 == w / 0x1_0000 % 256 && high / 256 == w / 0x100_0000;
  }

  lemma WordRoundTrip(w: uint32)
    ensures FromWord(Word(w)) == w
  {
    HalvesOfWord(w);
  }

  /** The two's complement reading of a word, and its inverse. */
  function Signed(w: uint32): int32 {
    if w < 0x8000_0000 then w else w - WORD
  }

  function Unsigned(i: int32): uint32 {
    if i >= 0 then i else i + WORD
  }

  /** `i + 1` on a 32-bit `int`, wrapping as the target's adder does. */
  function Increment(i: int32): int32 {
    if i == 0x7FFF_FFFF then -0x8000_0000 else i + 1
  }

  /** The C string held in a buffer: the bytes before the first NUL, or all of them. */
  function CString(s: seq<uint8>): (r: seq<uint8>)
    ensures r <= s && 0 !in r
    ensures |r| < |s| ==> s[|r|] == 0
  {
    if s == [] || s[0] == 0 then [] else [s[0]] + CString(s[1..])
  }

  /** Those three facts pin the C string down. */
  lemma {:induction false} CStringUnique(s: seq<uint8>, r: seq<uint8>)
    requires r <= s && 0 !in r
    requires |r| < |s| ==> s[|r|] == 0
    ensures CString(s) == r
  {
    var c := CString(s);
    assert r == s[..|r|] && c == s[..|c|];
    assert |c| == |r|;
  }

  lemma Associative<T>(a: seq<T>, b: seq<T>, c: seq<T>)
    ensures (a + b) + c == a + (b + c)
  {
  }

  // ---------- hexadecimal digits and identifiers ----------

  predicate IsHex(c: uint8) {
    48 <= c <= 57 || 65 <= c <= 70 || 97 <= c <= 102
  }

  function HexDigitValue(c: uint8): (v: nat)
    requires IsHex(c)
    ensures v < 16
  {
    if c <= 57 then c - 48 else if c <= 70 then c - 55 else c - 87
  }

  /** One of the digits that the client itself writes, in upper case. */
  predicate IsHexDigit(c: uint8) {
    48 <= c <= 57 || 65 <= c <= 70
  }

  const DASH: uint8 := 45

  predicate IsDashPosition(i: nat) {
    i == 8 || i == 13 || i == 18 || i == 23
  }

  /** An identifier of hexadecimal digits with dashes at the four places. */
  predicate IsUuid(uuid: seq<uint8>) {
    |uuid| == 36 && forall i | 0 <= i < 36 :: if IsDashPosition(i) then uuid[i] == DASH else IsHexDigit(uuid[i])
  }
}
