/**
 Hexadecimal text and identifiers: `btox`, `serial_string_to_uuid_string` and
 `aknano_gen_serial_and_uuid` (`src/aknano_device_gateway.c`), and `hex_to_bin`
 (`src/aknano_targets_manifest.c`).
 */
module HexCodec {
  import opened Bytes

  /** The digits "0123456789ABCDEF". */
  function HexChar(v: nat): (c: uint8)
    requires v < 16
    ensures IsHexDigit(c)
  {
    if v < 10 then 48 + v else 55 + v
  }

  function UpperChar(c: uint8): uint8 {
    if 97 <= c <= 122 then c - 32 else c
  }

  const UPPER_DIGITS := "0123456789ABCDEF"
  const LOWER_DIGITS := "0123456789abcdef"

  /** The digits are the usual ones, upper or lower case when read, upper case when written. */
  lemma HexDigitTable(c: uint8)
    ensures IsHex(c) <==> c as char in UPPER_DIGITS || c as char in LOWER_DIGITS
    ensures forall v | 0 <= v < 16 ::
              HexChar(v) == UPPER_DIGITS[v] as int
              && HexDigitValue(UPPER_DIGITS[v] as int) == HexDigitValue(LOWER_DIGITS[v] as int) == v
  {
  }

  lemma HexCharInverse(c: uint8)
    requires IsHex(c)
    ensures HexChar(HexDigitValue(c)) == UpperChar(c)
  {
  }

  /** Two characters per byte, high half first. */
  function HexText(bytes: seq<uint8>): (s: seq<uint8>)
    ensures |s| == 2 * |bytes|
    ensures forall i | 0 <= i < |s| :: s[i] == HexChar(Nibble(bytes, i))
  {
    seq(2 * |bytes|, i requires 0 <= i < 2 * |bytes| => HexChar(Nibble(bytes, i)))
  }

  function Nibble(bytes: seq<uint8>, i: nat): (v: nat)
    requires i < 2 * |bytes|
    ensures v < 16
  {
    if i % 2 == 0 then bytes[i / 2] / 16 else bytes[i / 2] % 16
  }

  predicate AllHex(s: seq<uint8>) {
    forall i | 0 <= i < |s| :: IsHex(s[i])
  }

  /** The bytes a hexadecimal text stands for. */
  function Binary(s: seq<uint8>): (b: seq<uint8>)
    requires AllHex(s) && |s| % 2 == 0
    ensures |b| == |s| / 2
  {
    seq(|s| / 2, i requires 0 <= i < |s| / 2 => 16 * HexDigitValue(s[2 * i]) + HexDigitValue(s[2 * i + 1]))
  }

  function Upper(s: seq<uint8>): seq<uint8> {
    seq(|s|, i requires 0 <= i < |s| => UpperChar(s[i]))
  }

  /** Decoding inverts encoding. */
  lemma BinaryOfHexText(bytes: seq<uint8>)
    ensures AllHex(HexText(bytes)) && Binary(HexText(bytes)) == bytes
  {
    var s := HexText(bytes);
    forall i | 0 <= i < |s| ensures IsHex(s[i]) && HexDigitValue(s[i]) == Nibble(bytes, i) {
    }
    forall i | 0 <= i < |bytes| ensures Binary(s)[i] == bytes[i] {
      assert Nibble(bytes, 2 * i) == bytes[i] / 16 && Nibble(bytes, 2 * i + 1) == bytes[i] % 16;
    }
  }

  /** Encoding what was decoded gives the text in upper case. */
  lemma HexTextOfBinary(s: seq<uint8>)
    requires AllHex(s) && |s| % 2 == 0
    ensures HexText(Binary(s)) == Upper(s)
  {
    forall i | 0 <= i < |s| ensures HexText(Binary(s))[i] == Upper(s)[i] {
      HexTextAt(s, i);
    }
  }

  lemma HexTextAt(s: seq<uint8>, i: nat)
    requires AllHex(s) && |s| % 2 == 0 && i < |s|
    ensures HexText(Binary(s))[i] == UpperChar(s[i])
  {
    assert i == 2 * (i / 2) + i % 2;
    HexCharInverse(s[i]);
  }

  /** `btox`, from the last character to the first. */
  method Btox(xp: array<uint8>, bb: seq<uint8>, n: nat)
    requires n <= xp.Length && n <= 2 * |bb|
    modifies xp
    ensures xp[..n] == HexText(bb)[..n]
    ensures xp[n..] == old(xp[n..])
  {
    var i := n - 1;
    while i >= 0
      invariant -1 <= i < n
      invariant forall k | i < k < n :: xp[k] == HexChar(Nibble(bb, k))
      invariant xp[n..] == old(xp[n..])
    {
      var shifted := if i % 2 == 0 then bb[i / 2] / 16 else bb[i / 2];
      xp[i] := HexChar(shifted % 16);
      i := i - 1;
    }
  }

  /** Two halves that do not overlap: OR is addition. */
  lemma OrHalves(high: nat, low: nat)
    requires high < 16 && low < 16
    ensures Or(16 * high, low) == 16 * high + low
  {
    assert Pow2(4) == 16;
    OrZero(high, 4);
    OrQuadruple(high, low / 4, 4);
    OrQuadruple(4 * high, low, 6);
  }

  lemma OrQuadruple(a: nat, b: nat, bits: nat)
    requires OrBits(a, b / 4, bits) == a + b / 4
    ensures OrBits(4 * a, b, bits + 2) == 4 * a + b
  {
    assert b / 2 / 2 == b / 4;
    OrDouble(a, b / 2, bits);
    OrDouble(2 * a, b, bits + 1);
  }

  lemma OrDouble(a: nat, b: nat, bits: nat)
    requires OrBits(a, b / 2, bits) == a + b / 2
    ensures OrBits(2 * a, b, bits + 1) == 2 * a + b
  {
  }

  lemma {:induction false} OrZero(a: nat, bits: nat)
    requires a < Pow2(bits)
    ensures OrBits(a, 0, bits) == a == OrBits(0, a, bits)
  {
    if bits > 0 {
      OrZero(a / 2, bits - 1);
    }
  }

  /** A byte of the result after `i` characters were read. */
  function PartialByte(s: seq<uint8>, i: nat, k: nat): nat
    requires i <= |s| && AllHex(s[..i])
  {
    if 2 * k + 1 < i then 16 * HexDigitValue(s[..i][2 * k]) + HexDigitValue(s[..i][2 * k + 1])
    else if 2 * k < i then 16 * HexDigitValue(s[..i][2 * k])
    else 0
  }

  lemma DigitJoinsByte(was: nat, j: nat, i: nat)
    requires j < 16 && (if i % 2 != 0 then exists h: nat :: h < 16 && was == 16 * h else was == 0)
    ensures was < 256 && Or(was, if i % 2 != 0 then j else 16 * j) == was + (if i % 2 != 0 then j else 16 * j)
  {
    if i % 2 != 0 {
      var h: nat :| h < 16 && was == 16 * h;
      OrHalves(h, j);
    } else {
      assert Pow2(8) == 256;
      OrZero(16 * j, 8);
    }
  }

  /** ORing the next digit into place. */
  lemma PartialStep(s: seq<uint8>, i: nat)
    requires i < |s| && AllHex(s[..i]) && IsHex(s[i])
    ensures AllHex(s[..i + 1])
    ensures var j := HexDigitValue(s[i]);
            var was := PartialByte(s, i, i / 2);
            was < 256 && Or(was, if i % 2 != 0 then j else 16 * j) == PartialByte(s, i + 1, i / 2)
    ensures forall k: nat | k != i / 2 :: PartialByte(s, i + 1, k) == PartialByte(s, i, k)
  {
    assert forall k | 0 <= k < i :: s[..i + 1][k] == s[..i][k];
    DigitJoinsByte(PartialByte(s, i, i / 2), HexDigitValue(s[i]), i);
  }

  /** `hex_to_bin`: fails exactly on a character that is not hexadecimal. */
  method HexToBin(s: seq<uint8>, dst: array<uint8>, len: nat) returns (ret: int)
    requires 2 * len <= |s| && len <= dst.Length
    modifies dst
    ensures ret == 0 || ret == -1
    ensures ret == 0 <==> AllHex(s[..2 * len])
    ensures ret == 0 ==> dst[..len] == Binary(s[..2 * len])
    ensures dst[len..] == old(dst[len..])
  {
    forall k | 0 <= k < len {
      dst[k] := 0;
    }
    var i := 0;
    while i < 2 * len
      invariant 0 <= i <= 2 * len && AllHex(s[..i])
      invariant forall k | 0 <= k < len :: dst[k] == PartialByte(s, i, k)
      invariant dst[len..] == old(dst[len..])
    {
      if !IsHex(s[i]) {
        assert !IsHex(s[..2 * len][i]);
        return -1;
      }
      var j := HexDigitValue(s[i]);
      PartialStep(s, i);
      dst[i / 2] := Or(dst[i / 2], if i % 2 != 0 then j else 16 * j);
      i := i + 1;
    }
    return 0;
  }

  // ---------- identifiers ----------

  /** How many characters of the serial come before position `i` of the UUID. */
  function SerialPosition(i: nat): nat {
    i - (if i > 23 then 4 else if i > 18 then 3 else if i > 13 then 2 else if i > 8 then 1 else 0)
  }

  /** The serial with dashes at the four places. */
  function UuidText(serial: seq<uint8>): (u: seq<uint8>)
    requires |serial| >= 32
    ensures |u| == 36
  {
    seq(36, i requires 0 <= i < 36 => if IsDashPosition(i) then DASH else serial[SerialPosition(i)])
  }

  /** In groups of 8, 4, 4, 4 and 12 characters. */
  lemma UuidGroups(serial: seq<uint8>)
    requires |serial| == 32
    ensures var dash := ['-' as int];
            UuidText(serial) == serial[..8] + dash + serial[8..12] + dash + serial[12..16] + dash
                                + serial[16..20] + dash + serial[20..]
  {
  }

  function WithoutDashes(s: seq<uint8>): seq<uint8> {
    if s == [] then [] else UnlessDash(s[0]) + WithoutDashes(s[1..])
  }

  function UnlessDash(c: uint8): seq<uint8> {
    if c == DASH then [] else [c]
  }

  lemma {:induction false} WithoutDashesSplits(a: seq<uint8>, b: seq<uint8>)
    ensures WithoutDashes(a + b) == WithoutDashes(a) + WithoutDashes(b)
  {
    if a == [] {
      assert a + b == b;
    } else {
      WithoutDashesSplits(a[1..], b);
      var ab := a + b;
      assert ab[0] == a[0] && ab[1..] == a[1..] + b;
      Associative(UnlessDash(a[0]), WithoutDashes(a[1..]), WithoutDashes(b));
    }
  }

  lemma {:induction false} NoDashesToRemove(s: seq<uint8>)
    requires DASH !in s
    ensures WithoutDashes(s) == s
  {
    if s != [] {
      NoDashesToRemove(s[1..]);
    }
  }

  /** Deleting the dashes of the UUID gives back the serial, for a serial without dashes. */
  lemma UuidWithoutDashesIsSerial(serial: seq<uint8>)
    requires |serial| == 32 && DASH !in serial
    ensures WithoutDashes(UuidText(serial)) == serial
  {
    var a, b, c, d, e := serial[..8], serial[8..12], serial[12..16], serial[16..20], serial[20..];
    assert UuidText(serial) == a + ([DASH] + (b + ([DASH] + (c + ([DASH] + (d + ([DASH] + e)))))));
    assert serial == a + (b + (c + (d + e)));
    WithoutDashesSplits(a, [DASH] + (b + ([DASH] + (c + ([DASH] + (d + ([DASH] + e)))))));
    WithoutDashesSplits(b, [DASH] + (c + ([DASH] + (d + ([DASH] + e)))));
    WithoutDashesSplits(c, [DASH] + (d + ([DASH] + e)));
    WithoutDashesSplits(d, [DASH] + e);
    DashGone(b + ([DASH] + (c + ([DASH] + (d + ([DASH] + e))))));
    DashGone(c + ([DASH] + (d + ([DASH] + e))));
    DashGone(d + ([DASH] + e));
    DashGone(e);
    NoDashesToRemove(a);
    NoDashesToRemove(b);
    NoDashesToRemove(c);
    NoDashesToRemove(d);
    NoDashesToRemove(e);
  }

  lemma DashGone(s: seq<uint8>)
    ensures WithoutDashes([DASH] + s) == WithoutDashes(s)
  {
    assert ([DASH] + s)[1..] == s;
  }

  /** `serial_string_to_uuid_string`. */
  method SerialStringToUuidString(serial: array<uint8>, uuid: array<uint8>)
    requires serial.Length >= 32 && uuid.Length >= 36 && uuid != serial
    modifies uuid
    ensures uuid[..36] == UuidText(serial[..])
    ensures uuid[36..] == old(uuid[36..])
  {
    var s := 0;
    for i := 0 to 36
      invariant s == SerialPosition(i)
      invariant forall k | 0 <= k < i :: uuid[k] == if IsDashPosition(k) then DASH else serial[SerialPosition(k)]
      invariant uuid[36..] == old(uuid[36..])
    {
      if i == 8 || i == 13 || i == 18 || i == 23 {
        uuid[i] := DASH;
      } else {
        uuid[i] := serial[s];
        s := s + 1;
      }
    }
  }

  /** `aknano_gen_serial_and_uuid`, for the 16 random bytes given: the serial is their hexadecimal text,
      the UUID the same with dashes, both NUL-terminated. The UUID has the format the protocol model
      assumes of a correlation id. */
  method GenSerialAndUuid(uuidString: array<uint8>, serialString: array<uint8>, randomBytes: seq<uint8>)
    requires |randomBytes| == 16
    requires uuidString.Length >= 37 && serialString.Length >= 33 && uuidString != serialString
    modifies uuidString, serialString
    ensures serialString[..33] == HexText(randomBytes) + [0]
    ensures IsUuid(uuidString[..36]) && WithoutDashes(uuidString[..36]) == HexText(randomBytes)
    ensures uuidString[..] == uuidString[..36] + [0] + old(uuidString[37..])
  {
    Btox(serialString, randomBytes, 32);
    ghost var serial := HexText(randomBytes);
    assert serialString[..32] == serial;
    SerialStringToUuidString(serialString, uuidString);
    ghost var uuid := uuidString[..36];
    assert uuid == UuidText(serial);
    UuidWithoutDashesIsSerial(serial);
    uuidString[36] := 0;
    serialString[32] := 0;
    assert uuidString[..36] == uuid;
  }
}
