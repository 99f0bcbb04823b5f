/**
 The storage as a whole: writes to its regions do not disturb each other, and provisioning starts it
 afresh (`aknano_save_uuid_and_serial`).
 */
module Stores {
  import opened Bytes
  import opened NorFlash
  import opened Layout
  import opened SettingsPage
  import opened TufStore

  /** A write to a region, which may have failed partway. */
  datatype Write = Write(region: Region, data: seq<uint8>, ok: bool)

  /** What a write does to the flash (`WriteRegion`): all of it, or anything within its sectors. */
  ghost predicate Effect(before: seq<uint8>, after: seq<uint8>, w: Write) {
    && |w.data| <= Size(w.region)
    && if w.ok then after == Stored(before, Start(w.region), w.data)
       else SameOutside(before, after, Start(w.region), |w.data|)
  }

  /** `aknano_write_data_to_storage` at the start of a region: the settings, a role file or the
      provisioned root. */
  method WriteRegion(flash: Flash, region: Region, data: seq<uint8>) returns (ok: bool)
    requires HasStorage(flash) && |data| <= Size(region)
    modifies flash.cells
    ensures Effect(old(flash.cells[..]), flash.cells[..], Write(region, data, ok))
    ensures flash.working ==> ok
  {
    RegionsPartitionStorage(Start(region));
    var ret := WriteDataToStorage(flash, Offset(region), data);
    ok := ret == 0;
  }

  /** The flash before and after each of a sequence of writes. */
  ghost predicate History(states: seq<seq<uint8>>, writes: seq<Write>) {
    && |states| == |writes| + 1
    && (forall i | 0 <= i < |states| :: STORAGE_END <= |states[i]|)
    && (forall i | 0 <= i < |writes| :: Effect(states[i], states[i + 1], writes[i]))
  }

  function Contents(flash: seq<uint8>, r: Region): (c: seq<uint8>)
    requires STORAGE_END <= |flash|
    ensures |c| == Size(r)
  {
    flash[Start(r)..Start(r) + Size(r)]
  }

  lemma SliceOfSlice(s: seq<uint8>, a: nat, b: nat, n: nat)
    requires a <= b <= |s| && n <= b - a
    ensures s[a..b][..n] == s[a..a + n]
  {
  }

  lemma SliceWithin(s: seq<uint8>, a: nat, b: nat, m: nat, n: nat)
    requires a <= b <= |s| && m <= n <= b - a
    ensures s[a..b][m..n] == s[a + m..a + n]
  {
    var t := s[a..b];
    forall i | 0 <= i < n - m ensures t[m..n][i] == s[a + m..a + n][i] {
      assert t[m + i] == s[a + m + i];
    }
  }

  lemma WriteStaysInRegion(r: Region, len: nat)
    requires len <= Size(r)
    ensures SectorStart(Start(r)) == Start(r) && SectorEnd(Start(r) + len) <= Start(r) + Size(r)
  {
  }

  lemma WriteWithinRegion(before: seq<uint8>, after: seq<uint8>, w: Write)
    requires Effect(before, after, w)
    ensures SameExcept(before, after, Start(w.region), Start(w.region) + Size(w.region))
  {
    if w.ok {
      RegionsPartitionStorage(Start(w.region));
      StoredOnlyTouchesItsSectors(before, Start(w.region), w.data);
    }
    WriteStaysInRegion(w.region, |w.data|);
  }

  /** A write, successful or not, leaves every other region as it was. */
  lemma OtherRegionsUntouched(before: seq<uint8>, after: seq<uint8>, w: Write, r: Region)
    requires STORAGE_END <= |before| && Effect(before, after, w) && r != w.region
    ensures Contents(after, r) == Contents(before, r)
  {
    WriteWithinRegion(before, after, w);
    RegionsApart(w.region, r);
  }

  lemma RegionsApart(q: Region, r: Region)
    requires q != r
    ensures Start(q) + Size(q) <= Start(r) || Start(r) + Size(r) <= Start(q)
  {
  }

  lemma {:induction false} UntouchedSince(states: seq<seq<uint8>>, writes: seq<Write>, r: Region, k: nat)
    requires History(states, writes) && k <= |writes|
    requires forall i | k <= i < |writes| :: writes[i].region != r
    ensures Contents(states[|writes|], r) == Contents(states[k], r)
  {
    if k < |writes| {
      var n := |writes| - 1;
      assert History(states[..n + 1], writes[..n]);
      UntouchedSince(states[..n + 1], writes[..n], r, k);
      OtherRegionsUntouched(states[n], states[n + 1], writes[n], r);
    }
  }

  /** After any sequence of writes, failed ones included, each region holds what its own last write left
      there, if that one succeeded. */
  lemma LastWriteStands(states: seq<seq<uint8>>, writes: seq<Write>, k: nat)
    requires History(states, writes) && k < |writes| && writes[k].ok
    requires forall i | k < i < |writes| :: writes[i].region != writes[k].region
    ensures var r, data := writes[k].region, writes[k].data;
            && Contents(states[|writes|], r) == Contents(Stored(states[k], Start(r), data), r)
            && |data| <= Size(r)
            && Contents(states[|writes|], r)[..|data|] == data
  {
    var r, data := writes[k].region, writes[k].data;
    UntouchedSince(states, writes, r, k + 1);
    StoredReadsBack(states[k], Start(r), data);
    SliceOfSlice(states[k + 1], Start(r), Start(r) + Size(r), |data|);
  }

  /** So the settings read back are those saved last, whatever role files were written since. */
  lemma SettingsSurviveFileWrites(states: seq<seq<uint8>>, writes: seq<Write>, k: nat, s: Settings)
    requires History(states, writes) && k < |writes| && writes[k] == Write(State, Page(s), true)
    requires forall i | k < i < |writes| :: writes[i].region != State
    ensures Decode(StatePage(states[|writes|])) == Decode(Page(s)) == Reload(s)
  {
    LastWriteStands(states, writes, k);
    var last := states[|writes|];
    SliceOfSlice(last, Start(State), Start(State) + SECTOR, PAGE);
    DecodeAfterPage(s);
  }

  lemma LoadedFromContents(flash: seq<uint8>, r: Region, buffer: seq<uint8>)
    requires STORAGE_END <= |flash| && |buffer| % 4 == 0 && |buffer| <= Size(r)
    ensures Loaded(buffer, flash, Start(r)) == Contents(flash, r)[..|buffer|]
  {
    SliceOfSlice(flash, Start(r), Start(r) + Size(r), |buffer|);
    assert buffer[|buffer|..] == [];
  }

  /** Different roles have different files. */
  lemma HomesDiffer(q: Role, r: Role)
    requires !q.OtherRole? && !r.OtherRole? && q != r
    ensures q.Home() != r.Home() && FlashOffsetForRole(q) != FlashOffsetForRole(r)
  {
  }

  /** So storing a file for one role leaves what is read for the other. */
  lemma RolesApart(flash: seq<uint8>, q: Role, data: seq<uint8>, r: Role, buffer: seq<uint8>)
    requires !q.OtherRole? && !r.OtherRole? && q != r && |data| <= TUF_METADATA_MAX_SIZE
    requires |buffer| % 4 == 0 && |buffer| <= TUF_METADATA_MAX_SIZE && STORAGE_END + |buffer| <= |flash|
    ensures Loaded(buffer, Stored(flash, Start(q.Home()), data), Start(r.Home()))
         == Loaded(buffer, flash, Start(r.Home()))
  {
    HomesDiffer(q, r);
    var after := Stored(flash, Start(q.Home()), data);
    OtherRegionsUntouched(flash, after, Write(q.Home(), data, true), r.Home());
    SameContentsReadSame(after, flash, r.Home(), buffer);
  }

  /** A region that is not the role's: the identity, the update state, the provisioned root, or another
      role's file. */
  ghost predicate Elsewhere(region: Region, role: Role) {
    || region == DeviceId || region == State || region == RootProvisioning
    || exists q: Role :: !q.OtherRole? && q != role && region == q.Home()
  }

  lemma ElsewhereDiffers(region: Region, role: Role)
    requires !role.OtherRole? && Elsewhere(region, role)
    ensures region != role.Home()
  {
    if q: Role :| !q.OtherRole? && q != role && region == q.Home() {
      HomesDiffer(q, role);
    }
  }

  /** And so does a role file that does not fill its last sector, whatever is written elsewhere, the files
      of the other roles included. */
  lemma FileSurvivesOtherWrites(states: seq<seq<uint8>>, writes: seq<Write>, k: nat, role: Role, text: seq<uint8>,
                                buffer: seq<uint8>)
    requires History(states, writes) && k < |writes| && !role.OtherRole?
    requires writes[k] == Write(role.Home(), text, true)
    requires forall i | k < i < |writes| :: Elsewhere(writes[i].region, role)
    requires |buffer| > 0 && |buffer| % 4 == 0 && |buffer| <= TUF_METADATA_MAX_SIZE
    requires forall i | 0 <= i < |states| :: STORAGE_END + |buffer| <= |states[i]|
    requires Readable(text, |buffer|) && |text| % SECTOR != 0
    ensures ReadRole(states[|writes|], role, buffer) == Readout(File(text), states[|writes|])
  {
    var r, last := role.Home(), states[|writes|];
    forall i | k < i < |writes| ensures writes[i].region != r {
      ElsewhereDiffers(writes[i].region, role);
    }
    LastWriteStands(states, writes, k);
    FileRoundTripIff(states[k], Start(r), text, buffer);
    SameContentsReadSame(last, Stored(states[k], Start(r), text), r, buffer);
  }

  lemma SameContentsReadSame(a: seq<uint8>, b: seq<uint8>, r: Region, buffer: seq<uint8>)
    requires STORAGE_END <= |a| && STORAGE_END <= |b| && |buffer| % 4 == 0 && |buffer| <= Size(r)
    requires Contents(a, r) == Contents(b, r)
    ensures Loaded(buffer, a, Start(r)) == Loaded(buffer, b, Start(r))
  {
    LoadedFromContents(a, r, buffer);
    LoadedFromContents(b, r, buffer);
  }

  // ---------- provisioning ----------

  const UUID_LENGTH := 40
  const SERIAL_LENGTH := 50

  /** `aknano_clear_provisioned_data`: erase every sector of the storage; errors are ignored. */
  method ClearProvisionedData(flash: Flash)
    requires HasStorage(flash)
    modifies flash.cells
    ensures SameExcept(old(flash.cells[..]), flash.cells[..], STORAGE_FLASH_OFFSET, STORAGE_END)
    ensures flash.working ==> forall i | STORAGE_FLASH_OFFSET <= i < STORAGE_END :: flash.cells[i] == ERASED
  {
    ghost var before := flash.cells[..];
    var offset := 0;
    ghost var sectors := 0;
    while offset < FLASH_SECTORS_COUNT * SECTOR
      invariant offset == SECTOR * sectors && sectors <= FLASH_SECTORS_COUNT
      invariant SameExcept(before, flash.cells[..], STORAGE_FLASH_OFFSET, STORAGE_END)
      invariant flash.working ==>
                  forall i | STORAGE_FLASH_OFFSET <= i < STORAGE_FLASH_OFFSET + offset :: flash.cells[i] == ERASED
    {
      SectorOfStorage(sectors);
      var _ := flash.SectorErase(STORAGE_FLASH_OFFSET + offset);
      offset := offset + SECTOR;
      sectors := sectors + 1;
    }
  }

  lemma SectorOfStorage(sectors: nat)
    ensures var addr := STORAGE_FLASH_OFFSET + SECTOR * sectors;
            addr % SECTOR == 0 && SectorStart(addr) == addr
  {
  }

  /** The page that holds the device's identity; the bytes around the two fields are whatever was on the
      stack. */
  function IdentityPage(uuid: seq<uint8>, serial: seq<uint8>, stack: seq<uint8>): (page: seq<uint8>)
    requires |uuid| == UUID_LENGTH && |serial| == SERIAL_LENGTH && |stack| == PAGE
    ensures |page| == PAGE
  {
    uuid + stack[UUID_LENGTH..128] + serial + stack[128 + SERIAL_LENGTH..]
  }

  /** `aknano_save_uuid_and_serial`. */
  method SaveUuidAndSerial(flash: Flash, uuid: seq<uint8>, serial: seq<uint8>, stack: seq<uint8>)
    requires HasStorage(flash) && |uuid| == UUID_LENGTH && |serial| == SERIAL_LENGTH && |stack| == PAGE
    modifies flash.cells
    ensures SameExcept(old(flash.cells[..]), flash.cells[..], STORAGE_FLASH_OFFSET, STORAGE_END)
    ensures flash.working ==> Provisioned(flash.cells[..], IdentityPage(uuid, serial, stack))
  {
    var page := new uint8[PAGE](i requires 0 <= i < PAGE => stack[i]);
    ClearProvisionedData(flash);
    forall i | 0 <= i < UUID_LENGTH {
      page[OFF_DEV_UUID + i] := uuid[i];
    }
    forall i | 0 <= i < SERIAL_LENGTH {
      page[OFF_DEV_SERIAL + i] := serial[i];
    }
    assert page[..] == IdentityPage(uuid, serial, stack);
    var _ := flash.PageProgram(STORAGE_FLASH_OFFSET + OFF_DEV_UUID, page);
    forall i: uint8 ensures And(ERASED, i) == i {
      AndErased(i);
    }
  }

  /** The storage right after provisioning: the identity page, everything else erased. */
  ghost predicate Provisioned(flash: seq<uint8>, page: seq<uint8>) {
    && |page| == PAGE && STORAGE_END <= |flash|
    && flash[STORAGE_FLASH_OFFSET..STORAGE_FLASH_OFFSET + PAGE] == page
    && (forall i | STORAGE_FLASH_OFFSET + PAGE <= i < STORAGE_END :: flash[i] == ERASED)
  }

  /** Provisioning forgets every file and every update: no role can be read, the root's fall-back
      included, and the update state decodes to its defaults. */
  lemma ProvisioningForgets(flash: seq<uint8>, page: seq<uint8>, role: Role, buffer: seq<uint8>)
    requires Provisioned(flash, page) && |buffer| >= 4 && STORAGE_END + |buffer| <= |flash|
    ensures ReadRole(flash, role, buffer) == Readout(NoFile, flash)
    ensures var s := Decode(StatePage(flash));
            && s.lastApplied == 0 && s.lastConfirmed == 0 && CString(s.correlationId) == []
            && s.retryCount == 0 && s.nextRetryTime == 0
  {
    NoFileProvisioned(flash, page, role, buffer);
    assert StatePage(flash) == Fill(PAGE, ERASED);
    ErasedPageDecodesToDefaults();
  }

  lemma NoFileProvisioned(flash: seq<uint8>, page: seq<uint8>, role: Role, buffer: seq<uint8>)
    requires Provisioned(flash, page) && |buffer| >= 4 && STORAGE_END + |buffer| <= |flash|
    ensures ReadRole(flash, role, buffer) == Readout(NoFile, flash)
  {
    if !role.OtherRole? {
      var addr := Start(role.Home());
      assert flash[addr] == ERASED;
      FirstLoaded(buffer, flash, addr);
      if role.Root? {
        assert flash[Start(RootProvisioning)] == ERASED;
        FirstLoaded(Loaded(buffer, flash, addr), flash, Start(RootProvisioning));
      }
    }
  }

  lemma FirstLoaded(buffer: seq<uint8>, flash: seq<uint8>, addr: nat)
    requires |buffer| >= 4 && addr + |buffer| <= |flash|
    ensures |Loaded(buffer, flash, addr)| == |buffer| && Loaded(buffer, flash, addr)[0] == flash[addr]
  {
  }

  /** What `aknano_init_settings` makes of the first character of the serial and of the UUID: where
      `char` is signed, a byte above 127 empties the string. */
  function ClampText(s: seq<uint8>, charIsSigned: bool): seq<uint8>
    requires s != []
  {
    if charIsSigned && s[0] > 127 then s[0 := 0] else s
  }

  /** The identity read back at the next boot, into zeroed buffers. */
  function UuidRead(flash: seq<uint8>, charIsSigned: bool): seq<uint8>
    requires STORAGE_END <= |flash|
  {
    ClampText(Loaded(Fill(UUID_LENGTH, 0), flash, STORAGE_FLASH_OFFSET + OFF_DEV_UUID), charIsSigned)
  }

  function SerialRead(flash: seq<uint8>, charIsSigned: bool): seq<uint8>
    requires STORAGE_END <= |flash|
  {
    ClampText(Loaded(Fill(SERIAL_LENGTH, 0), flash, STORAGE_FLASH_OFFSET + OFF_DEV_SERIAL), charIsSigned)
  }

  /** `aknano_init_settings`, the part that reads the identity. */
  method LoadIdentity(flash: Flash, charIsSigned: bool) returns (uuid: array<uint8>, serial: array<uint8>)
    requires HasStorage(flash)
    ensures fresh(uuid) && fresh(serial)
    ensures flash.working ==> serial[..] == SerialRead(flash.cells[..], charIsSigned)
    ensures flash.working ==> uuid[..] == UuidRead(flash.cells[..], charIsSigned)
  {
    serial := LoadText(flash, OFF_DEV_SERIAL, SERIAL_LENGTH, charIsSigned);
    uuid := LoadText(flash, OFF_DEV_UUID, UUID_LENGTH, charIsSigned);
  }

  method LoadText(flash: Flash, offset: nat, len: nat, charIsSigned: bool) returns (text: array<uint8>)
    requires HasStorage(flash) && 0 < len && offset + len <= PAGE
    ensures fresh(text) && text.Length == len
    ensures flash.working ==>
              text[..] == ClampText(Loaded(Fill(len, 0), flash.cells[..], STORAGE_FLASH_OFFSET + offset), charIsSigned)
  {
    text := new uint8[len](_ => 0);
    assert text[..] == Fill(len, 0);
    var _ := ReadFlashStorage(flash, offset, text);
    if charIsSigned && text[0] > 127 {
      text[0] := 0;
    }
  }

  /** The identity survives provisioning and a reboot exactly when the UUID and serial start like ASCII
      text (where `char` is signed) and the serial has at most 48 characters. */
  lemma IdentitySurvives(flash: seq<uint8>, uuid: seq<uint8>, serial: seq<uint8>, stack: seq<uint8>, charIsSigned: bool)
    requires |uuid| == 40 && |serial| == 50 && |stack| == PAGE
    requires Provisioned(flash, IdentityPage(uuid, serial, stack))
    ensures CString(UuidRead(flash, charIsSigned)) == CString(uuid) <==> !(charIsSigned && uuid[0] > 127)
    ensures CString(SerialRead(flash, charIsSigned)) == CString(serial)
            <==> !(charIsSigned && serial[0] > 127) && |CString(serial)| <= 48
    ensures flash[0x60_0000..0x60_0000 + 40] == uuid && flash[0x60_0080..0x60_0080 + 50] == serial
  {
    var page := IdentityPage(uuid, serial, stack);
    var at, there := STORAGE_FLASH_OFFSET, STORAGE_FLASH_OFFSET + OFF_DEV_SERIAL;
    assert flash[at..at + PAGE][..UUID_LENGTH] == uuid;
    assert Loaded(Fill(UUID_LENGTH, 0), flash, at) == uuid;
    var loaded := Loaded(Fill(SERIAL_LENGTH, 0), flash, there);
    assert flash[at..at + PAGE][OFF_DEV_SERIAL..OFF_DEV_SERIAL + 48] == serial[..48];
    SliceWithin(flash, at, at + PAGE, OFF_DEV_SERIAL, OFF_DEV_SERIAL + 48);
    SliceWithin(flash, at, at + PAGE, OFF_DEV_SERIAL, OFF_DEV_SERIAL + SERIAL_LENGTH);
    assert page[OFF_DEV_SERIAL..OFF_DEV_SERIAL + SERIAL_LENGTH] == serial;
    assert Fill(SERIAL_LENGTH, 0)[48..] == [0, 0];
    assert loaded == serial[..48] + [0, 0];
    var c, r := CString(serial), CString(loaded);
    if |c| <= 48 {
      CStringUnique(loaded, c);
    } else {
      assert loaded[48] == 0;
    }
  }
}
