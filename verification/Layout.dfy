/** Where the client keeps its data on the flash (`src/aknano.h`). */
module Layout {
  import opened Bytes
  import opened NorFlash

  const STORAGE_FLASH_OFFSET := 0x60_0000
  const FLASH_SECTORS_COUNT := 22
  const STORAGE_END := STORAGE_FLASH_OFFSET + FLASH_SECTORS_COUNT * SECTOR

  const OFF_DEV_UUID := 0
  const OFF_DEV_SERIAL := 128
  const OFF_STATE := SECTOR
  const OFF_LAST_APPLIED_VERSION := OFF_STATE
  const OFF_LAST_CONFIRMED_VERSION := OFF_STATE + 4
  const OFF_ONGOING_UPDATE_COR_ID := OFF_STATE + 8
  const OFF_ROLLBACK_RETRY_COUNT := OFF_STATE + 8 + 100
  const OFF_ROLLBACK_NEXT_RETRY_TIME := OFF_STATE + 12 + 100
  const OFF_TUF_ROLES := SECTOR * 2
  const TUF_METADATA_MAX_SIZE := SECTOR * 4

  datatype Region = DeviceId | State | RootProvisioning | RoleRoot | RoleTimestamp | RoleSnapshot | RoleTargets

  function Offset(r: Region): nat {
    match r
    case DeviceId => 0
    case State => OFF_STATE
    case RootProvisioning => OFF_TUF_ROLES
    case RoleRoot => OFF_TUF_ROLES + TUF_METADATA_MAX_SIZE
    case RoleTimestamp => OFF_TUF_ROLES + TUF_METADATA_MAX_SIZE * 2
    case RoleSnapshot => OFF_TUF_ROLES + TUF_METADATA_MAX_SIZE * 3
    case RoleTargets => OFF_TUF_ROLES + TUF_METADATA_MAX_SIZE * 4
  }

  function Size(r: Region): nat {
    if r == DeviceId || r == State then SECTOR else TUF_METADATA_MAX_SIZE
  }

  function Start(r: Region): nat {
    STORAGE_FLASH_OFFSET + Offset(r)
  }

  predicate Holds(r: Region, addr: nat) {
    Start(r) <= addr < Start(r) + Size(r)
  }

  /** The regions are made of whole sectors and partition the storage: each of its bytes belongs to
      exactly one of them. */
  lemma RegionsPartitionStorage(addr: nat)
    ensures forall r: Region :: Start(r) % SECTOR == 0 && Size(r) % SECTOR == 0
    ensures STORAGE_FLASH_OFFSET <= addr < STORAGE_END <==> exists r: Region :: Holds(r, addr)
    ensures forall r, q: Region :: Holds(r, addr) && Holds(q, addr) ==> r == q
  {
    if STORAGE_FLASH_OFFSET <= addr < STORAGE_END {
      var r :=
        if Holds(DeviceId, addr) then DeviceId
        else if Holds(State, addr) then State
        else if Holds(RootProvisioning, addr) then RootProvisioning
        else if Holds(RoleRoot, addr) then RoleRoot
        else if Holds(RoleTimestamp, addr) then RoleTimestamp
        else if Holds(RoleSnapshot, addr) then RoleSnapshot
        else RoleTargets;
      assert Holds(r, addr);
    }
  }

  /** The addresses themselves: whatever wrote a region, at a factory or under another version, finds it
      there again. */
  lemma RegionAddresses()
    ensures Start(DeviceId) == 0x60_0000 && Start(State) == 0x60_1000 && Start(RootProvisioning) == 0x60_2000
    ensures Start(RoleRoot) == 0x60_6000 && Start(RoleTimestamp) == 0x60_A000
    ensures Start(RoleSnapshot) == 0x60_E000 && Start(RoleTargets) == 0x61_2000 && STORAGE_END == 0x61_6000
  {
  }

  /** A flash that is large enough for the storage. */
  predicate HasStorage(flash: Flash) {
    flash.Valid() && STORAGE_END <= flash.cells.Length
  }

  /** `aknano_write_data_to_storage`. */
  method WriteDataToStorage(flash: Flash, offset: nat, data: seq<uint8>) returns (ret: int)
    requires HasStorage(flash) && STORAGE_FLASH_OFFSET + offset + |data| <= flash.cells.Length
    modifies flash.cells
    ensures ret == 0 || ret == -1 || ret == -2
    ensures SameOutside(old(flash.cells[..]), flash.cells[..], STORAGE_FLASH_OFFSET + offset, |data|)
    ensures flash.working && offset % SECTOR == 0 ==> ret == 0
    ensures ret == 0 && offset % SECTOR == 0 ==>
              flash.cells[..] == Stored(old(flash.cells[..]), STORAGE_FLASH_OFFSET + offset, data)
  {
    ret := WriteDataToFlash(flash, STORAGE_FLASH_OFFSET + offset, data);
  }

  /** `aknano_read_flash_storage`: only whole words are read, so up to three bytes at the end of the
      output stay as they were. */
  method ReadFlashStorage(flash: Flash, offset: nat, output: array<uint8>) returns (ret: int)
    requires HasStorage(flash) && STORAGE_FLASH_OFFSET + offset + output.Length <= flash.cells.Length
    requires output != flash.cells
    modifies output
    ensures ret == 0 || ret == -1
    ensures flash.working ==> ret == 0
    ensures ret == 0 ==>
              output[..] == Loaded(old(output[..]), flash.cells[..], STORAGE_FLASH_OFFSET + offset)
  {
    var words := output.Length / 4 * 4;
    var status := flash.Read(STORAGE_FLASH_OFFSET + offset, output, words);
    ret := if status != 0 then -1 else 0;
    assert output[..] == output[..words] + output[words..];
  }

  function Loaded(output: seq<uint8>, flash: seq<uint8>, addr: nat): seq<uint8>
    requires addr + |output| <= |flash|
  {
    var words := |output| / 4 * 4;
    flash[addr..addr + words] + output[words..]
  }

  /** What was written reads back. */
  lemma StoredReadsBack(flash: seq<uint8>, addr: nat, data: seq<uint8>)
    requires addr + |data| <= |flash|
    ensures Stored(flash, addr, data)[addr..addr + |data|] == data
  {
  }
}
