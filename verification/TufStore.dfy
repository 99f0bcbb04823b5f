/**
 The TUF role files kept in flash (`src/aknano_tuf_client.c`): how they are written, how they are read
 back by looking for the erased or zero byte that ends them, and the fall-back to the provisioned root.
 */
module TufStore {
  import opened Bytes
  import opened NorFlash
  import opened Layout

  const OPEN_BRACE: uint8 := '{' as int
  const READ_ERROR := -1
  const TUF_SUCCESS := 0

  /** The roles of libtufnano; anything but the first four has no file. */
  datatype Role = Root | Timestamp | Snapshot | Targets | OtherRole {
    function Home(): Region
      requires !OtherRole?
    {
      match this
      case Root => RoleRoot
      case Timestamp => RoleTimestamp
      case Snapshot => RoleSnapshot
      case Targets => RoleTargets
    }
  }

  /** `get_flash_offset_for_role`. */
  function FlashOffsetForRole(role: Role): int {
    if role.OtherRole? then -1 else Offset(role.Home())
  }

  predicate IsEnd(b: uint8) {
    b == 0 || b == ERASED
  }

  /** The text in a loaded buffer: everything before the first zero or erased byte, but never its last
      byte, which is overwritten by the terminator. */
  function FileText(buffer: seq<uint8>): (text: seq<uint8>)
    requires buffer != []
    ensures text <= buffer && |text| < |buffer|
    ensures forall i | 0 <= i < |text| :: !IsEnd(text[i])
    ensures |text| < |buffer| - 1 ==> IsEnd(buffer[|text|])
  {
    if |buffer| == 1 || IsEnd(buffer[0]) then [] else [buffer[0]] + FileText(buffer[1..])
  }

  lemma {:induction false} FileTextUnique(buffer: seq<uint8>, text: seq<uint8>)
    requires text <= buffer && |text| < |buffer|
    requires forall i | 0 <= i < |text| :: !IsEnd(text[i])
    requires |text| < |buffer| - 1 ==> IsEnd(buffer[|text|])
    ensures FileText(buffer) == text
  {
    var f := FileText(buffer);
    assert forall i | 0 <= i < |f| :: f[i] == buffer[i];
    assert forall i | 0 <= i < |text| :: text[i] == buffer[i];
    assert |f| == |text|;
  }

  /** What reading a file from a loaded buffer gives. */
  datatype FileResult = NoFile | File(text: seq<uint8>)

  function ReadFile(loaded: seq<uint8>): FileResult
    requires loaded != []
  {
    if loaded[0] != OPEN_BRACE then NoFile else File(FileText(loaded))
  }

  /** `read_local_json_file`. A success leaves the text in the buffer with a terminator behind it. */
  method ReadLocalJsonFile(flash: Flash, initialOffset: nat, buffer: array<uint8>) returns (ret: int, fileSize: nat)
    requires HasStorage(flash) && buffer != flash.cells && buffer.Length > 0
    requires STORAGE_FLASH_OFFSET + initialOffset + buffer.Length <= flash.cells.Length
    modifies buffer
    ensures ret == TUF_SUCCESS || ret == READ_ERROR
    ensures ret == TUF_SUCCESS ==> fileSize < buffer.Length && buffer[fileSize] == 0
    ensures flash.working ==>
              ReadFile(Loaded(old(buffer[..]), flash.cells[..], STORAGE_FLASH_OFFSET + initialOffset))
              == if ret == TUF_SUCCESS then File(buffer[..fileSize]) else NoFile
    ensures flash.working && ret == READ_ERROR ==>
              buffer[..] == Loaded(old(buffer[..]), flash.cells[..], STORAGE_FLASH_OFFSET + initialOffset)
  {
    fileSize := 0;
    ret := ReadFlashStorage(flash, initialOffset, buffer);
    if ret < 0 {
      return;
    }
    ghost var loaded := buffer[..];
    if buffer[0] != OPEN_BRACE {
      return READ_ERROR, 0;
    }
    var i := 0;
    while i < buffer.Length
      invariant 0 <= i <= buffer.Length && buffer[..] == loaded
      invariant forall k | 0 <= k < i :: buffer[k] != ERASED
    {
      if buffer[i] == ERASED {
        buffer[i] := 0;
        break;
      }
      i := i + 1;
    }
    buffer[buffer.Length - 1] := 0;
    fileSize := StrNLen(buffer);
    CutAtFirstEnd(loaded, i, buffer[..], fileSize);
    ret := TUF_SUCCESS;
  }

  method StrNLen(buffer: array<uint8>) returns (n: nat)
    ensures n <= buffer.Length && (n < buffer.Length ==> buffer[n] == 0)
    ensures forall i | 0 <= i < n :: buffer[i] != 0
  {
    n := 0;
    while n < buffer.Length && buffer[n] != 0
      invariant n <= buffer.Length
      invariant forall i | 0 <= i < n :: buffer[i] != 0
    {
      n := n + 1;
    }
  }

  /** Zeroing the first erased byte (at `i`, if any) and the last byte makes the C string the text. */
  lemma CutAtFirstEnd(loaded: seq<uint8>, i: nat, cut: seq<uint8>, n: nat)
    requires loaded != [] && i <= |loaded| == |cut| && n < |cut|
    requires forall k | 0 <= k < i :: loaded[k] != ERASED
    requires i < |loaded| ==> loaded[i] == ERASED
    requires forall k | 0 <= k < |cut| :: cut[k] == if k == i || k == |cut| - 1 then 0 else loaded[k]
    requires cut[n] == 0 && forall k | 0 <= k < n :: cut[k] != 0
    ensures FileText(loaded) == cut[..n]
  {
    assert n <= i;
    FileTextUnique(loaded, cut[..n]);
  }

  // ---------- writing, and reading back ----------

  /** A file of the size there is room for stays among the role files. */
  lemma RoleFileStays(role: Role, len: nat)
    requires !role.OtherRole? && len <= TUF_METADATA_MAX_SIZE
    ensures Start(RoleRoot) <= SectorStart(Start(role.Home()))
    ensures SectorEnd(Start(role.Home()) + len) <= STORAGE_END
  {
  }

  /** A role without a file has the offset -1, which the writer is given unchecked: the sectors that
      `WriteLocalFile` may then change are the one before the storage and, for more than one byte, the
      device's identity. */
  lemma UnknownRoleReachesIdentity(len: nat)
    ensures var addr := STORAGE_FLASH_OFFSET + FlashOffsetForRole(OtherRole);
            && SectorStart(addr) == STORAGE_FLASH_OFFSET - SECTOR
            && (len > 0 ==>
                  (SectorEnd(addr + len) >= Start(DeviceId) + Size(DeviceId) <==> len > 1))
  {
  }

  /** `tuf_client_write_local_file`. */
  method WriteLocalFile(flash: Flash, role: Role, data: seq<uint8>) returns (ret: int)
    requires HasStorage(flash) && STORAGE_FLASH_OFFSET + FlashOffsetForRole(role) + |data| <= flash.cells.Length
    modifies flash.cells
    ensures SameOutside(old(flash.cells[..]), flash.cells[..], STORAGE_FLASH_OFFSET + FlashOffsetForRole(role), |data|)
    ensures !role.OtherRole? && flash.working ==> ret == 0
    ensures !role.OtherRole? && ret == 0 ==>
              flash.cells[..] == Stored(old(flash.cells[..]), Start(role.Home()), data)
  {
    var initialOffset := FlashOffsetForRole(role);
    ret := WriteDataToFlash(flash, STORAGE_FLASH_OFFSET + initialOffset, data);
  }

  /** A file that can be told from what follows it in a buffer of `room` bytes. */
  predicate Readable(text: seq<uint8>, room: nat) {
    && text != [] && text[0] == OPEN_BRACE
    && (forall i | 0 <= i < |text| :: text[i] != 0 && text[i] != 255)
    && |text| < room
  }

  /** Exactly when a file reads back as it was written: it has to be readable, and if it fills its last
      sector completely the byte behind it, left from before, must happen to end it. */
  lemma FileRoundTripIff(flash: seq<uint8>, addr: nat, text: seq<uint8>, buffer: seq<uint8>)
    requires addr % SECTOR == 0 && addr + |text| < |flash| && addr + |buffer| <= |flash|
    requires |buffer| > 0 && |buffer| % 4 == 0
    ensures ReadFile(Loaded(buffer, Stored(flash, addr, text), addr)) == File(text)
            <==> Readable(text, |buffer|) && (|text| % SECTOR != 0 || IsEnd(flash[addr + |text|]))
  {
    var after := Stored(flash, addr, text);
    var loaded := Loaded(buffer, after, addr);
    assert loaded == after[addr..addr + |buffer|];
    if |text| % SECTOR != 0 {
      assert after[addr + |text|] == ERASED by {
        RoomInLastSector(addr, |text|);
      }
    } else {
      LastSectorFull(addr, |text|);
      assert after[addr + |text|] == flash[addr + |text|];
    }
    if |text| < |buffer| {
      assert loaded[..|text|] == text by {
        StoredReadsBack(flash, addr, text);
      }
      assert |text| < |buffer| - 1 ==> loaded[|text|] == after[addr + |text|];
      if Readable(text, |buffer|) && (|text| % SECTOR != 0 || IsEnd(flash[addr + |text|])) {
        assert loaded[0] == text[0];
        FileTextUnique(loaded, text);
      }
    }
  }

  lemma RoomInLastSector(addr: nat, len: nat)
    requires addr % SECTOR == 0 && len % SECTOR != 0
    ensures addr + len < SectorEnd(addr + len)
  {
  }

  lemma LastSectorFull(addr: nat, len: nat)
    requires addr % SECTOR == 0 && len % SECTOR == 0
    ensures addr + len == SectorEnd(addr + len)
  {
  }

  /** A file of exactly one sector written over a longer one reads back longer than it is. */
  lemma FullSectorFileReadsBackWrong(flash: seq<uint8>, addr: nat, text: seq<uint8>, buffer: seq<uint8>)
    requires addr % SECTOR == 0 && addr + |buffer| <= |flash|
    requires |text| == SECTOR && Readable(text, |buffer|) && |buffer| == TUF_METADATA_MAX_SIZE
    requires !IsEnd(flash[addr + SECTOR])
    ensures var r := ReadFile(Loaded(buffer, Stored(flash, addr, text), addr));
            r.File? && text < r.text
  {
    var after := Stored(flash, addr, text);
    var loaded := Loaded(buffer, after, addr);
    LastSectorFull(addr, SECTOR);
    StoredReadsBack(flash, addr, text);
    assert loaded == after[addr..addr + |buffer|];
    assert loaded[..SECTOR] == text && loaded[0] == text[0];
    assert loaded[SECTOR] == flash[addr + SECTOR];
    var f := FileText(loaded);
    assert |f| > SECTOR;
    assert f[..SECTOR] == text;
  }

  // ---------- the provisioned root ----------

  /** The outcome of reading a role: the file, and the flash afterwards. */
  datatype Readout = Readout(file: FileResult, flash: seq<uint8>)

  function ReadRole(flash: seq<uint8>, role: Role, buffer: seq<uint8>): Readout
    requires buffer != [] && STORAGE_END + |buffer| <= |flash|
  {
    if role.OtherRole? then Readout(NoFile, flash)
    else
      var loaded := Loaded(buffer, flash, Start(role.Home()));
      if ReadFile(loaded).File? || !role.Root? then Readout(ReadFile(loaded), flash)
      else
        var provisioned := ReadFile(Loaded(loaded, flash, Start(RootProvisioning)));
        Readout(provisioned,
                if provisioned.File? then Stored(flash, Start(RoleRoot), provisioned.text) else flash)
  }

  /** Which file a read finds, from the first byte of a region: the role's own; only the root's role has
      the provisioned one to fall back to. */
  lemma OnlyRootFallsBack(flash: seq<uint8>, role: Role, buffer: seq<uint8>)
    requires |buffer| >= 4 && STORAGE_END + |buffer| <= |flash| && !role.OtherRole?
    ensures var out, own := ReadRole(flash, role, buffer), Start(role.Home());
            if flash[own] == '{' as int
            then out == Readout(File(FileText(Loaded(buffer, flash, own))), flash)
            else if role == Root && flash[Start(RootProvisioning)] == '{' as int
            then out.file.File?
              && out.file == ReadFile(Loaded(Loaded(buffer, flash, own), flash, Start(RootProvisioning)))
            else out == Readout(NoFile, flash)
  {
    var own, there := Start(role.Home()), Start(RootProvisioning);
    assert Loaded(buffer, flash, own)[0] == flash[own];
    assert Loaded(Loaded(buffer, flash, own), flash, there)[0] == flash[there];
  }

  /** `tuf_client_read_local_file`: a missing root is taken from the provisioned one and installed. */
  method ReadLocalFile(flash: Flash, role: Role, buffer: array<uint8>) returns (ret: int, fileSize: nat)
    requires HasStorage(flash) && buffer != flash.cells && buffer.Length > 0
    requires STORAGE_END + buffer.Length <= flash.cells.Length
    modifies buffer, flash.cells
    ensures ret == TUF_SUCCESS || ret == READ_ERROR
    ensures ret == TUF_SUCCESS ==> fileSize < buffer.Length
    ensures if role == Root && ret == TUF_SUCCESS
            then SameOutside(old(flash.cells[..]), flash.cells[..], Start(RoleRoot), fileSize)
            else flash.cells[..] == old(flash.cells[..])
    ensures flash.working ==>
              ReadRole(old(flash.cells[..]), role, old(buffer[..]))
              == ReadoutOf(ret, buffer[..], fileSize, flash.cells[..])
  {
    var initialOffset := FlashOffsetForRole(role);
    if initialOffset < 0 {
      return READ_ERROR, 0;
    }
    ghost var before, cells := buffer[..], flash.cells[..];
    ret, fileSize := ReadLocalJsonFile(flash, initialOffset, buffer);
    assert flash.cells[..] == cells;
    if ret < 0 {
      if role == Root {
        ghost var loaded := buffer[..];
        ret, fileSize := ReadProvisionedRoot(flash, buffer);
        assert flash.working ==> loaded == Loaded(before, cells, Start(RoleRoot));
        return;
      }
      return READ_ERROR, 0;
    }
  }

  function ReadoutOf(ret: int, buffer: seq<uint8>, fileSize: nat, flash: seq<uint8>): Readout
    requires ret == TUF_SUCCESS ==> fileSize < |buffer|
  {
    Readout(if ret == TUF_SUCCESS then File(buffer[..fileSize]) else NoFile, flash)
  }

  /** The fall-back of that method. */
  method ReadProvisionedRoot(flash: Flash, buffer: array<uint8>) returns (ret: int, fileSize: nat)
    requires HasStorage(flash) && buffer != flash.cells && buffer.Length > 0
    requires STORAGE_END + buffer.Length <= flash.cells.Length
    modifies buffer, flash.cells
    ensures ret == TUF_SUCCESS || ret == READ_ERROR
    ensures ret == TUF_SUCCESS ==> fileSize < buffer.Length
    ensures ret == TUF_SUCCESS ==> SameOutside(old(flash.cells[..]), flash.cells[..], Start(RoleRoot), fileSize)
    ensures ret == READ_ERROR ==> flash.cells[..] == old(flash.cells[..])
    ensures flash.working ==>
              ReadFile(Loaded(old(buffer[..]), old(flash.cells[..]), Start(RootProvisioning)))
              == if ret == TUF_SUCCESS then File(buffer[..fileSize]) else NoFile
    ensures flash.working && ret == TUF_SUCCESS ==>
              flash.cells[..] == Stored(old(flash.cells[..]), Start(RoleRoot), buffer[..fileSize])
  {
    ret, fileSize := ReadLocalJsonFile(flash, Offset(RootProvisioning), buffer);
    if ret == TUF_SUCCESS {
      var _ := WriteLocalFile(flash, Root, buffer[..fileSize]);
    }
  }

  /** Falling back to the provisioned root and reading the root once more: the second read finds the
      same text in the root's own slot and writes nothing, exactly when the text does not fill its last
      sector or happens to be ended by what was in flash before. */
  lemma FallBackInstallsRoot(flash: seq<uint8>, buffer: seq<uint8>, again: seq<uint8>)
    requires |buffer| == |again| > 0 && |buffer| % 4 == 0 && STORAGE_END + |buffer| <= |flash|
    requires ReadFile(Loaded(buffer, flash, Start(RoleRoot))) == NoFile && ReadRole(flash, Root, buffer).file.File?
    ensures var first := ReadRole(flash, Root, buffer);
            var text := first.file.text;
            first.flash == Stored(flash, Start(RoleRoot), text)
            && (ReadRole(first.flash, Root, again) == Readout(File(text), first.flash)
                <==> |text| % SECTOR != 0 || IsEnd(flash[Start(RoleRoot) + |text|]))
  {
    var first := ReadRole(flash, Root, buffer);
    var text := first.file.text;
    FileBeginsWithBrace(Loaded(Loaded(buffer, flash, Start(RoleRoot)), flash, Start(RootProvisioning)));
    FileRoundTripIff(flash, Start(RoleRoot), text, again);
    RootReadsAsFile(flash, text, again);
  }

  lemma FileBeginsWithBrace(loaded: seq<uint8>)
    requires |loaded| > 1 && ReadFile(loaded).File?
    ensures Readable(ReadFile(loaded).text, |loaded|)
  {
    var text := ReadFile(loaded).text;
    assert text != [] && text[0] == loaded[0];
  }

  /** Once a root text was stored, reading the root does not fall back any more. */
  lemma RootReadsAsFile(flash: seq<uint8>, text: seq<uint8>, buffer: seq<uint8>)
    requires |buffer| >= 4 && |text| < |buffer| && STORAGE_END + |buffer| <= |flash|
    requires text != [] && text[0] == OPEN_BRACE
    ensures var after := Stored(flash, Start(RoleRoot), text);
            ReadRole(after, Root, buffer) == Readout(ReadFile(Loaded(buffer, after, Start(RoleRoot))), after)
  {
    var after, addr := Stored(flash, Start(RoleRoot), text), Start(RoleRoot);
    StoredReadsBack(flash, addr, text);
    assert after[addr] == after[addr..addr + |text|][0];
    assert Loaded(buffer, after, addr)[0] == after[addr];
  }
}
