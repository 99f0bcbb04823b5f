/**
 The update state that survives a reset: how it is packed into one flash page
 (`aknano_update_settings_in_flash`) and what the next boot makes of that page (`aknano_init_settings`).
 The two disagree on where the retry count is, so reading does not simply invert writing.
 */
module SettingsPage {
  import opened Bytes
  import opened NorFlash
  import opened Layout

  const MAX_VERSION := 999_999_999
  const COR_ID_LENGTH := 102

  type CorId = s: seq<uint8> | |s| == COR_ID_LENGTH witness seq(COR_ID_LENGTH, _ => 0)

  const NO_COR_ID: CorId := Fill(COR_ID_LENGTH, 0)

  datatype Settings = Settings(
    lastApplied: uint32,
    lastConfirmed: uint32,
    correlationId: CorId,
    retryCount: int32,
    nextRetryTime: uint32)

  type PageBytes = s: seq<uint8> | |s| == PAGE witness seq(PAGE, _ => 0)

  /** The page as it is packed: the whole 102-byte identifier, then the retry fields. */
  function Page(s: Settings): PageBytes {
    Word(s.lastApplied) + Word(s.lastConfirmed) + s.correlationId
    + Word(Unsigned(s.retryCount)) + Word(s.nextRetryTime) + Fill(PAGE - 118, 0)
  }

  function ClampVersion(v: uint32): uint32 {
    if v > MAX_VERSION then 0 else v
  }

  function ClampCorId(id: CorId): CorId {
    if id[0] > 122 then id[0 := 0] else id
  }

  /** The settings as the reader finds them in a page. */
  function Decode(page: PageBytes): Settings {
    var retryCount := Signed(FromWord(page[108..112]));
    var nextRetryTime := FromWord(page[112..116]);
    Settings(
      ClampVersion(FromWord(page[0..4])),
      ClampVersion(FromWord(page[4..8])),
      ClampCorId(page[8..108] + [0, 0]),
      if retryCount < 0 then 0 else retryCount,
      if nextRetryTime == UINT_MAX then 0 else nextRetryTime)
  }

  /** What the settings turn into across a reset. The reader takes the last two identifier bytes and
      the low half of the retry count for the count, and its high half and the low half of the time
      for the time. */
  function Reload(s: Settings): Settings {
    var count := Unsigned(s.retryCount);
    var readCount := s.correlationId[100] + 256 * (s.correlationId[101] as int) + 0x1_0000 * (count % 0x1_0000);
    var readTime := count / 0x1_0000 + 0x1_0000 * (s.nextRetryTime % 0x1_0000);
    Settings(
      ClampVersion(s.lastApplied),
      ClampVersion(s.lastConfirmed),
      ClampCorId(s.correlationId[..100] + [0, 0]),
      if readCount < 0x8000_0000 then readCount else 0,
      if readTime == UINT_MAX then 0 else readTime)
  }

  lemma PageLayout(s: Settings)
    ensures var p := Page(s);
            && p[0..4] == Word(s.lastApplied)
            && p[4..8] == Word(s.lastConfirmed)
            && p[8..108] == s.correlationId[..100]
            && p[108..112] == s.correlationId[100..] + Word(Unsigned(s.retryCount))[..2]
            && p[112..116] == Word(Unsigned(s.retryCount))[2..] + Word(s.nextRetryTime)[..2]
            && p[8..110] == s.correlationId
            && p[110..114] == Word(Unsigned(s.retryCount)) && p[114..118] == Word(s.nextRetryTime)
            && (forall i | 118 <= i < 256 :: p[i] == 0)
  {
  }

  /** Reading a page back gives the reloaded settings, for every settings record. */
  lemma DecodeAfterPage(s: Settings)
    ensures Decode(Page(s)) == Reload(s)
  {
    PageLayout(s);
    WordRoundTrip(s.lastApplied);
    WordRoundTrip(s.lastConfirmed);
    var c, t := Unsigned(s.retryCount), s.nextRetryTime;
    HalvesOfWord(c);
    HalvesOfWord(t);
    assert FromWord(s.correlationId[100..] + Word(c)[..2])
        == s.correlationId[100] as int + 256 * s.correlationId[101] as int + 0x1_0000 * (c % 0x1_0000);
    assert FromWord(Word(c)[2..] + Word(t)[..2]) == c / 0x1_0000 + 0x1_0000 * (t % 0x1_0000);
  }

  /** Versions survive exactly when they do not exceed 999999999; a larger one reads back as 0. */
  lemma VersionsSurvive(s: Settings)
    ensures var d := Decode(Page(s));
            && d.lastApplied == (if s.lastApplied <= 999_999_999 then s.lastApplied else 0)
            && d.lastConfirmed == (if s.lastConfirmed <= 999_999_999 then s.lastConfirmed else 0)
  {
    DecodeAfterPage(s);
  }

  /** The identifier survives as a string exactly when it has at most 100 characters and does not
      start with a byte above 'z'. */
  lemma CorrelationIdSurvives(s: Settings)
    ensures var id := CString(s.correlationId);
            CString(Decode(Page(s)).correlationId) == id
            <==> |id| <= 100 && (id == [] || id[0] <= 122)
  {
    DecodeAfterPage(s);
    var id, buffer := CString(s.correlationId), Reload(s).correlationId;
    if |id| <= 100 && (id == [] || id[0] <= 122) {
      assert s.correlationId[0] <= 122;
      CStringUnique(buffer, id);
    } else if |id| > 100 {
      var r := CString(buffer);
      if |r| > 100 {
        assert r[100] == buffer[100];
        assert r[100] in r;
      }
    } else {
      assert buffer[0] == 0;
    }
  }

  /** With an identifier of at most 100 characters (the rest of its buffer zero) the retry count comes
      back 65536 times its low half, or 0 where that exceeds an int; only a count of 0 survives. */
  lemma RetryCountAfterReload(s: Settings)
    requires s.correlationId[100] == s.correlationId[101] == 0
    ensures var low := Unsigned(s.retryCount) % 0x1_0000;
            Decode(Page(s)).retryCount == if low < 0x8000 then 0x1_0000 * low else 0
    ensures Decode(Page(s)).retryCount == s.retryCount <==> s.retryCount == 0
  {
    CountReloaded(s);
    DecodeAfterPage(s);
  }

  /** The time of the next retry comes back shifted by the same two bytes: its low half in the high one,
      above the high half of the count, unless that reads as erased. */
  lemma RetryTimeAfterReload(s: Settings)
    ensures var read := Unsigned(s.retryCount) / 0x1_0000 + 0x1_0000 * (s.nextRetryTime % 0x1_0000);
            Decode(Page(s)).nextRetryTime == if read == 0xFFFF_FFFF then 0 else read
  {
    DecodeAfterPage(s);
  }

  /** The count is a 32-bit int in two's complement. */
  lemma TwosComplement(i: int32)
    ensures Signed(Unsigned(i)) == i && Unsigned(i) == i % 0x1_0000_0000
    ensures Unsigned(Increment(i)) == (i + 1) % 0x1_0000_0000
  {
  }

  lemma CountReloaded(s: Settings)
    requires s.correlationId[100] == s.correlationId[101] == 0
    ensures var low := Unsigned(s.retryCount) % 0x1_0000;
            Reload(s).retryCount == if low < 0x8000 then 0x1_0000 * low else 0
    ensures Reload(s).retryCount == s.retryCount <==> s.retryCount == 0
  {
  }

  /** An erased page decodes to a device that never updated. */
  lemma ErasedPageDecodesToDefaults()
    ensures var s := Decode(Fill(PAGE, ERASED));
            && s.lastApplied == 0 && s.lastConfirmed == 0 && CString(s.correlationId) == []
            && s.retryCount == 0 && s.nextRetryTime == 0
  {
  }

  function StatePage(flash: seq<uint8>): PageBytes
    requires STORAGE_END <= |flash|
  {
    flash[Start(State)..Start(State) + PAGE]
  }

  /** `aknano_update_settings_in_flash`: pack the fields into a zeroed page and write it. */
  method UpdateSettingsInFlash(flash: Flash, s: Settings)
    requires HasStorage(flash)
    modifies flash.cells
    ensures SameOutside(old(flash.cells[..]), flash.cells[..], Start(State), PAGE)
    ensures flash.working ==> StatePage(flash.cells[..]) == Page(s)
    ensures flash.working ==> flash.cells[..] == Stored(old(flash.cells[..]), Start(State), Page(s))
  {
    var flashPageBuffer := PackSettings(s);
    ghost var before := flash.cells[..];
    var ret := WriteDataToStorage(flash, OFF_STATE, flashPageBuffer[..]);
    StoredReadsBack(before, Start(State), Page(s));
  }

  method PackSettings(s: Settings) returns (buffer: array<uint8>)
    ensures fresh(buffer) && buffer[..] == Page(s)
  {
    buffer := new uint8[PAGE](_ => 0);
    var offset := 0;
    ghost var packed: seq<uint8> := [];
    assert buffer[..] == packed + Fill(PAGE, 0);
    offset, packed := Append(buffer, offset, Word(s.lastApplied), packed);
    offset, packed := Append(buffer, offset, Word(s.lastConfirmed), packed);
    offset, packed := Append(buffer, offset, s.correlationId, packed);
    offset, packed := Append(buffer, offset, Word(Unsigned(s.retryCount)), packed);
    offset, packed := Append(buffer, offset, Word(s.nextRetryTime), packed);
  }

  /** Copies the next field behind those already packed. */
  method Append(buffer: array<uint8>, offset: nat, field: seq<uint8>, ghost packed: seq<uint8>)
    returns (next: nat, ghost all: seq<uint8>)
    requires |packed| == offset && offset + |field| <= buffer.Length
    requires buffer[..] == packed + Fill(buffer.Length - offset, 0)
    modifies buffer
    ensures next == offset + |field| && all == packed + field
    ensures buffer[..] == all + Fill(buffer.Length - next, 0)
  {
    forall i | 0 <= i < |field| {
      buffer[offset + i] := field[i];
    }
    next, all := offset + |field|, packed + field;
  }

  /** The part of `aknano_init_settings` that reads the persisted update state. */
  method LoadSettings(flash: Flash) returns (s: Settings)
    requires HasStorage(flash)
    ensures flash.working ==> s == Decode(StatePage(flash.cells[..]))
  {
    var lastApplied := ReadWord(flash, OFF_LAST_APPLIED_VERSION);
    if lastApplied > MAX_VERSION {
      lastApplied := 0;
    }
    var lastConfirmed := ReadWord(flash, OFF_LAST_CONFIRMED_VERSION);
    if lastConfirmed > MAX_VERSION {
      lastConfirmed := 0;
    }
    var correlationId := ReadCorrelationId(flash);
    var count := ReadWord(flash, OFF_ROLLBACK_RETRY_COUNT);
    var retryCount := Signed(count);
    if retryCount < 0 {
      retryCount := 0;
    }
    var nextRetryTime := ReadWord(flash, OFF_ROLLBACK_NEXT_RETRY_TIME);
    if nextRetryTime == UINT_MAX {
      nextRetryTime := 0;
    }
    s := Settings(lastApplied, lastConfirmed, correlationId, retryCount, nextRetryTime);
  }

  method ReadCorrelationId(flash: Flash) returns (id: CorId)
    requires HasStorage(flash)
    ensures flash.working ==> id == ClampCorId(StatePage(flash.cells[..])[8..108] + [0, 0])
  {
    var buffer := new uint8[COR_ID_LENGTH](_ => 0);
    ghost var cells, at := flash.cells[..], STORAGE_FLASH_OFFSET + OFF_ONGOING_UPDATE_COR_ID;
    ghost var blank := buffer[..];
    assert blank[100..] == [0, 0];
    assert Loaded(blank, cells, at) == cells[at..at + 100] + [0, 0];
    var ret := ReadFlashStorage(flash, OFF_ONGOING_UPDATE_COR_ID, buffer);
    assert flash.working ==> buffer[..] == cells[at..at + 100] + [0, 0];
    assert cells[at..at + 100] == StatePage(cells)[8..108];
    id := buffer[..];
    if buffer[0] > 122 {
      id := id[0 := 0];
    }
  }

  method ReadWord(flash: Flash, offset: nat) returns (w: uint32)
    requires HasStorage(flash) && OFF_STATE <= offset && offset + 4 <= OFF_STATE + PAGE
    ensures flash.working ==>
              w == FromWord(StatePage(flash.cells[..])[offset - OFF_STATE..offset - OFF_STATE + 4])
  {
    var word := new uint8[4](_ => 0);
    ghost var cells, at := flash.cells[..], STORAGE_FLASH_OFFSET + offset;
    var ret := ReadFlashStorage(flash, offset, word);
    assert flash.working ==> word[..] == cells[at..at + 4];
    assert cells[at..at + 4] == StatePage(cells)[offset - OFF_STATE..offset - OFF_STATE + 4];
    w := FromWord(word[..]);
  }
}
