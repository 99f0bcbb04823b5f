/**
 The client itself (`struct aknano_settings` and the functions of `src/aknano_api.c` and `src/aknano.c`
 that update it), working on a real flash: the settings page, the role files of the TUF refresh and the
 image slots. Every method is proved to take exactly the steps of the transition system in `Protocol`,
 so the theorems about its runs hold of the sample loop, and to write nowhere but where it may.
 */
module Client {
  import opened Bytes
  import opened NorFlash
  import opened Layout
  import opened SettingsPage
  import opened TufStore
  import opened TargetsManifest
  import opened Download
  import opened Protocol
  import ProtocolSafety
  import ProtocolDecisions

  const NO_VERSION: uint32 := 0
  const CHECK_IN_ERROR := -10
  const MAX_OFFLINE_TIME_ON_TEMP_IMAGE := 180

  datatype RoleFile = RoleFile(role: Role, text: seq<uint8>)

  /** What the environment contributes to one iteration of the sample loop: the role files that the TUF
      refresh stores and whether the check-in succeeds in the end, the targets manifest, the tag and the
      polling interval then in force, the clock when a retry is considered, the text an event takes for a
      missing identifier, the random identifier, the connection to the download server and its replies,
      the result of marking the image, and the clock at the end of the iteration. */
  datatype Turn = Turn(
    refresh: seq<RoleFile>,
    checkInOk: bool,
    manifest: Manifest,
    tag: seq<uint8>,
    pollingInterval: int,
    now: int,
    standIn: CorId,
    uuid: seq<uint8>,
    connected: bool,
    replies: seq<Reply>,
    readyOk: bool,
    retryTime: uint32,
    epoch: int)

  predicate ValidTurn(t: Turn) {
    && (forall f | f in t.refresh :: HasRoom(f))
    && (t.manifest.TargetList? ==> forall x | x in t.manifest.targets :: x.version != Some(UINT_MAX))
    && t.standIn[0] != 0
    && IsUuid(t.uuid)
  }

  predicate ValidTurns(turns: seq<Turn>) {
    forall i | 0 <= i < |turns| :: ValidTurnAt(turns, i)
  }

  predicate ValidTurnAt(turns: seq<Turn>, i: nat)
    requires i < |turns|
  {
    ValidTurn(turns[i])
  }

  /** What does not change while the device runs: the name of its board, SHA-256, and the bootloader's
      check of an image. */
  datatype Platform = Platform(
    hwid: seq<uint8>,
    sha256: seq<uint8> -> seq<uint8>,
    verifyImage: seq<uint8> -> bool)

  /** What the client makes of it: the target selected and whether its download succeeded. */
  datatype Outcome = Outcome(target: Selected, downloadOk: bool)

  /** The target is the manifest's choice for the device. */
  ghost predicate Selects(t: Turn, hwid: seq<uint8>, s: Selected) {
    if CString(t.tag) != [] && t.manifest.TargetList?
    then exists n: nat :: ChosenAmong(t.manifest.targets, Device(hwid, t.tag), n, s)
    else s == NoTarget()
  }

  ghost predicate ChosenAmong(targets: seq<Target>, device: Device, n: nat, s: Selected) {
    n <= |targets| && Scanned(targets, device, n) && IsFirstHighest(s, targets[..n], device)
  }

  lemma SelectedIsOffered(t: Turn, hwid: seq<uint8>, s: Selected)
    requires ValidTurn(t) && Selects(t, hwid, s)
    ensures s.version != UINT_MAX
  {
    if CString(t.tag) != [] && t.manifest.TargetList? && s != NoTarget() {
      var targets, device := t.manifest.targets, Device(hwid, t.tag);
      var n: nat :| ChosenAmong(targets, device, n, s);
      var x := FirstHighestIsMember(s, targets[..n], device);
      assert x in targets;
    }
  }

  /** The download's result is the one that the replies call for. */
  ghost predicate DownloadDecided(p: Platform, t: Turn, target: Selected, downloadOk: bool) {
    Decided(t.replies, t.connected, target.expectedSize, target.expectedHash, p.sha256, p.verifyImage, downloadOk)
  }

  /** `aknano_limit_sleep_time_range`, in seconds: the time in range that is nearest. */
  function LimitSleepTime(sleepTime: int): (r: int)
    ensures 5 <= r <= 60 * 60
    ensures forall t | 5 <= t <= 60 * 60 :: Distance(sleepTime, r) <= Distance(sleepTime, t)
  {
    if sleepTime < 5 then 5 else if sleepTime > 60 * 60 then 60 * 60 else sleepTime
  }

  function Distance(a: int, b: int): nat {
    if a <= b then b - a else a - b
  }

  // ---------- where the client may write ----------

  /** The slots do not overlap the storage. */
  predicate ClearOfStorage(s: Slots) {
    && (s.image1 + MAX_FIRMWARE_SIZE <= STORAGE_FLASH_OFFSET || STORAGE_END <= s.image1)
    && (s.image2 + MAX_FIRMWARE_SIZE <= STORAGE_FLASH_OFFSET || STORAGE_END <= s.image2)
  }

  /** The update state, the role files and the slot that is not running. */
  predicate Writable(addr: nat, slot: nat) {
    || Start(State) <= addr < Start(State) + SECTOR
    || Start(RoleRoot) <= addr < STORAGE_END
    || slot <= addr < slot + MAX_FIRMWARE_SIZE
  }

  ghost predicate WithinBounds(a: seq<uint8>, b: seq<uint8>, slot: nat) {
    && |a| == |b|
    && forall i {:trigger a[i]} {:trigger b[i]} | 0 <= i < |a| && !Writable(i, slot) :: a[i] == b[i]
  }

  lemma WithinBoundsTrans(a: seq<uint8>, b: seq<uint8>, c: seq<uint8>, slot: nat)
    requires WithinBounds(a, b, slot) && WithinBounds(b, c, slot)
    ensures WithinBounds(a, c, slot)
  {
  }

  /** So the device's identity, the provisioned root and the running image stay as they are. */
  ghost predicate Preserved(a: seq<uint8>, b: seq<uint8>, position: uint8, s: Slots)
    requires ValidSlots(s, |a|) && STORAGE_END <= |a| == |b|
  {
    && SameRegion(a, b, DeviceId) && SameRegion(a, b, RootProvisioning)
    && (position == 1 || position == 2 ==>
          var run := RunningSlotAddress(position, s);
          b[run..run + MAX_FIRMWARE_SIZE] == a[run..run + MAX_FIRMWARE_SIZE])
  }

  ghost predicate SameRegion(a: seq<uint8>, b: seq<uint8>, r: Region)
    requires STORAGE_END <= |a| == |b|
  {
    b[Start(r)..Start(r) + Size(r)] == a[Start(r)..Start(r) + Size(r)]
  }

  lemma WithinBoundsPreserves(a: seq<uint8>, b: seq<uint8>, position: uint8, s: Slots)
    requires WithinBounds(a, b, TargetSlotAddress(position, s))
    requires ValidSlots(s, |a|) && ClearOfStorage(s) && STORAGE_END <= |a|
    ensures Preserved(a, b, position, s)
  {
    SameSlice(a, b, Start(DeviceId), Start(DeviceId) + SECTOR);
    SameSlice(a, b, Start(RootProvisioning), Start(RoleRoot));
    if position == 1 || position == 2 {
      var run := RunningSlotAddress(position, s);
      SameSlice(a, b, run, run + MAX_FIRMWARE_SIZE);
    }
  }

  lemma SameSlice(a: seq<uint8>, b: seq<uint8>, lo: nat, hi: nat)
    requires lo <= hi <= |a| == |b|
    requires forall i {:trigger a[i]} {:trigger b[i]} | lo <= i < hi :: a[i] == b[i]
    ensures a[lo..hi] == b[lo..hi]
  {
  }

  // ---------- the role files of a refresh ----------

  predicate HasRoom(f: RoleFile) {
    !f.role.OtherRole? && |f.text| <= TUF_METADATA_MAX_SIZE
  }

  /** The file is in its role's region, followed by erased cells up to the end of its last sector. */
  ghost predicate FileStored(cells: seq<uint8>, f: RoleFile)
    requires HasRoom(f) && STORAGE_END <= |cells|
  {
    var addr, end := Start(f.role.Home()), Start(f.role.Home()) + |f.text|;
    cells[addr..end] == f.text && forall i | end <= i < SectorEnd(end) && i < STORAGE_END :: cells[i] == 0xFF
  }

  /** Of the first `n` files each that is the last of its role is stored. */
  ghost predicate LatestStored(cells: seq<uint8>, files: seq<RoleFile>, n: nat) {
    && n <= |files| && STORAGE_END <= |cells|
    && forall k | 0 <= k < n && IsLatest(files, n, k) :: HasRoom(files[k]) && FileStored(cells, files[k])
  }

  predicate IsLatest(files: seq<RoleFile>, n: nat, k: nat)
    requires k < n <= |files|
  {
    forall j | k < j < n :: files[j].role != files[k].role
  }

  lemma FileStays(a: seq<uint8>, b: seq<uint8>, f: RoleFile, lo: nat, hi: nat)
    requires HasRoom(f) && STORAGE_END <= |a| && FileStored(a, f) && SameExcept(a, b, lo, hi)
    requires var addr := Start(f.role.Home()); hi <= addr || addr + TUF_METADATA_MAX_SIZE <= lo
    ensures FileStored(b, f)
  {
    var addr := Start(f.role.Home());
    RegionsPartitionStorage(addr);
    SameSlice(a, b, addr, addr + |f.text|);
  }

  lemma OtherFileStays(a: seq<uint8>, f: RoleFile, g: RoleFile)
    requires HasRoom(f) && HasRoom(g) && f.role != g.role && STORAGE_END <= |a| && FileStored(a, f)
    ensures FileStored(Stored(a, Start(g.role.Home()), g.text), f)
  {
    var start := Start(g.role.Home());
    RegionsPartitionStorage(start);
    StoredOnlyTouchesItsSectors(a, start, g.text);
    assert SameExcept(a, Stored(a, start, g.text), start, start + TUF_METADATA_MAX_SIZE);
    FileStays(a, Stored(a, start, g.text), f, start, start + TUF_METADATA_MAX_SIZE);
  }

  lemma FileIsStored(a: seq<uint8>, f: RoleFile)
    requires HasRoom(f) && STORAGE_END <= |a|
    ensures FileStored(Stored(a, Start(f.role.Home()), f.text), f)
  {
    StoredReadsBack(a, Start(f.role.Home()), f.text);
  }

  lemma LatestStep(a: seq<uint8>, files: seq<RoleFile>, n: nat)
    requires n < |files| && LatestStored(a, files, n) && HasRoom(files[n])
    ensures LatestStored(Stored(a, Start(files[n].role.Home()), files[n].text), files, n + 1)
  {
    var b := Stored(a, Start(files[n].role.Home()), files[n].text);
    FileIsStored(a, files[n]);
    forall k | 0 <= k < n && IsLatest(files, n + 1, k) ensures HasRoom(files[k]) && FileStored(b, files[k]) {
      assert IsLatest(files, n, k);
      OtherFileStays(a, files[k], files[n]);
    }
  }

  /** Saving the settings leaves them stored. */
  lemma LatestStays(a: seq<uint8>, b: seq<uint8>, files: seq<RoleFile>)
    requires LatestStored(a, files, |files|) && SameExcept(a, b, Start(State), Start(State) + SECTOR)
    ensures LatestStored(b, files, |files|)
  {
    forall k | 0 <= k < |files| && IsLatest(files, |files|, k) ensures FileStored(b, files[k]) {
      FileStays(a, b, files[k], Start(State), Start(State) + SECTOR);
    }
  }

  // ---------- runs, folded ----------

  /** The events lead from the one world to the other. The quantifier keeps the run from being unfolded
      wherever the client's state is looked at: `ReachesRun` does that where it is needed. */
  ghost predicate Reaches(from: World, events: seq<Event>, to: World) {
    forall es {:trigger Unfold(es)} | Unfold(es) && es == events :: CanRun(from, es) && Exec(from, es) == to
  }

  predicate Unfold(events: seq<Event>) {
    true
  }

  lemma ReachesRun(from: World, events: seq<Event>, to: World)
    ensures Reaches(from, events, to) <==> CanRun(from, events) && Exec(from, events) == to
  {
    assert Unfold(events);
  }

  // ---------- what the sample loop is to do ----------

  /** After a successful check-in: install if an update is required, otherwise carry on. */
  function DecisionEvents(w: World, t: Turn, o: Outcome): seq<Event> {
    if w.phase.Reported? && UpdateRequired(w.ram, o.target.version, t.now)
    then InstallEvents(t, o.downloadOk) else [SkipInstall(t.now)]
  }

  function InstallEvents(t: Turn, downloadOk: bool): seq<Event> {
    [StartInstall(t.now, t.uuid)]
    + (if downloadOk then [DownloadDone, MarkReadyForTest(t.readyOk, t.retryTime)] else [DownloadFailed])
    + [SaveSettings]
  }

  lemma InstallSteps(was: seq<Event>, t: Turn, downloadOk: bool)
    ensures was + InstallEvents(t, downloadOk)
         == was + [StartInstall(t.now, t.uuid)]
            + (if downloadOk then [DownloadDone] + [MarkReadyForTest(t.readyOk, t.retryTime)] else [DownloadFailed])
            + [SaveSettings]
  {
  }

  function IterationEvents(w: World, t: Turn, o: Outcome): seq<Event>
    requires w.phase.Idle? && o.target.version != UINT_MAX
  {
    var selected := o.target.version;
    if t.checkInOk then AttendEvents(selected) + DecisionEvents(Attended(w, selected), t, o) else [CheckInFailed]
  }

  /** From `mid` to `to` the run takes the steps of one iteration, on the target that the manifest
      selects and with the result its download has to have. */
  ghost predicate FollowsTurn(start: World, p: Platform, mid: seq<Event>, to: seq<Event>, t: Turn, o: Outcome) {
    && CanRun(start, mid) && Exec(start, mid).phase.Idle? && ValidTurn(t)
    && o.target.version != UINT_MAX
    && (t.checkInOk ==> Selects(t, p.hwid, o.target))
    && (t.checkInOk && Installs(Exec(start, mid), t, o.target.version) ==>
          DownloadDecided(p, t, o.target, o.downloadOk))
    && to == mid + IterationEvents(Exec(start, mid), t, o)
  }

  /** After a successful check-in that selects this version, an update is required. */
  predicate Installs(w: World, t: Turn, selected: uint32)
    requires w.phase.Idle? && selected != UINT_MAX
  {
    UpdateRequired(Attended(w, selected).ram, selected, t.now)
  }

  /** The `history` of a run, before and after each iteration, follows the turns with these outcomes. */
  ghost predicate FollowsTurns(start: World, p: Platform, history: seq<seq<Event>>,
                               turns: seq<Turn>, outcomes: seq<Outcome>)
  {
    && |history| == |outcomes| + 1 <= |turns| + 1
    && forall i | 0 <= i < |outcomes| :: FollowsTurnAt(start, p, history, turns, outcomes, i)
  }

  ghost predicate FollowsTurnAt(start: World, p: Platform, history: seq<seq<Event>>,
                                turns: seq<Turn>, outcomes: seq<Outcome>, i: nat)
    requires i < |outcomes| <= |turns| && |history| == |outcomes| + 1
  {
    FollowsTurn(start, p, history[i], history[i + 1], turns[i], outcomes[i])
  }

  lemma SelectsOne(t: Turn, hwid: seq<uint8>, s: Selected, u: Selected)
    requires Selects(t, hwid, s) && Selects(t, hwid, u)
    ensures s == u
  {
    if CString(t.tag) != [] && t.manifest.TargetList? {
      var targets, device := t.manifest.targets, Device(hwid, t.tag);
      var n: nat :| ChosenAmong(targets, device, n, s);
      var m: nat :| ChosenAmong(targets, device, m, u);
      SelectionIsUnique(targets, device, n, m, s, u);
    }
  }

  /** The turns and the results of the downloads leave no choice. */
  lemma {:induction false} TurnsDecide(start: World, p: Platform, turns: seq<Turn>,
                                       one: seq<seq<Event>>, a: seq<Outcome>,
                                       other: seq<seq<Event>>, b: seq<Outcome>, n: nat)
    requires FollowsTurns(start, p, one, turns, a) && FollowsTurns(start, p, other, turns, b)
    requires n <= |a| == |b| && one[0] == other[0]
    requires forall i | 0 <= i < |a| :: a[i].downloadOk == b[i].downloadOk
    ensures one[n] == other[n]
  {
    if n > 0 {
      TurnsDecide(start, p, turns, one, a, other, b, n - 1);
      assert FollowsTurnAt(start, p, one, turns, a, n - 1) && FollowsTurnAt(start, p, other, turns, b, n - 1);
      if turns[n - 1].checkInOk {
        SelectsOne(turns[n - 1], p.hwid, a[n - 1].target, b[n - 1].target);
      }
    }
  }

  lemma OneMoreTurn(start: World, p: Platform, history: seq<seq<Event>>, turns: seq<Turn>,
                    outcomes: seq<Outcome>, to: seq<Event>, o: Outcome)
    requires FollowsTurns(start, p, history, turns, outcomes) && |outcomes| < |turns|
    requires FollowsTurn(start, p, history[|outcomes|], to, turns[|outcomes|], o)
    ensures FollowsTurns(start, p, history + [to], turns, outcomes + [o])
  {
    forall i | 0 <= i <= |outcomes|
      ensures FollowsTurnAt(start, p, history + [to], turns, outcomes + [o], i)
    {
      assert i < |outcomes| ==> FollowsTurnAt(start, p, history, turns, outcomes, i);
    }
  }

  type FreshWorld = w: World | Fresh(w) ghost witness Rebooted(Fill(PAGE, ERASED), Boot(0, NoTrial), true)

  class Client {
    const flash: Flash
    const slots: Slots
    const platform: Platform

    var boot: Boot
    var imagePosition: uint8
    var runningVersion: uint32
    /** The part of the settings that is kept in flash. */
    var settings: Settings
    var isRunningRolledBackImage: bool
    var isImagePermanent: bool
    var executedOnce: bool
    /** The target selected in the current iteration. */
    var selectedTarget: Selected

    /** The settings page as it is in flash. */
    ghost var stored: PageBytes
    /** Where the run began. */
    ghost const start: FreshWorld
    ghost var events: seq<Event>
    ghost var phase: Phase

    function CurrentRam(): Ram
      reads this
    {
      Ram(runningVersion, settings, isRunningRolledBackImage, isImagePermanent, executedOnce)
    }

    ghost function View(): World
      reads this
    {
      World(stored, boot, CurrentRam(), phase)
    }

    ghost predicate FlashOk()
      reads this, flash.cells
    {
      && HasStorage(flash) && flash.working && stored == StatePage(flash.cells[..])
      && ValidSlots(slots, flash.cells.Length) && ClearOfStorage(slots)
    }

    /** The slot the next update goes to. */
    function TargetSlot(): nat
      reads this
    {
      TargetSlotAddress(imagePosition, slots)
    }

    /** The slot for updates has the target, brought by the replies. */
    ghost predicate HoldsUpdate(cells: seq<uint8>, position: uint8, target: Selected, replies: seq<Reply>) {
      exists n: nat ::
        Accepted(cells, TargetSlotAddress(position, slots), replies, n,
                 target.expectedSize, target.expectedHash, platform.sha256, platform.verifyImage)
    }

    /** Saving the settings leaves it there. */
    lemma UpdateStays(a: seq<uint8>, b: seq<uint8>, position: uint8, target: Selected, replies: seq<Reply>)
      requires SameExcept(a, b, Start(State), Start(State) + SECTOR) && ClearOfStorage(slots)
      requires HoldsUpdate(a, position, target, replies)
      ensures HoldsUpdate(b, position, target, replies)
    {
      var slot, size := TargetSlotAddress(position, slots), target.expectedSize;
      var sha256, verifyImage := platform.sha256, platform.verifyImage;
      var n: nat :| Accepted(a, slot, replies, n, size, target.expectedHash, sha256, verifyImage);
      SameSlice(a, b, slot, slot + size);
      assert Accepted(b, slot, replies, n, size, target.expectedHash, sha256, verifyImage);
    }

    /** The steps taken so far are a run of the protocol and lead here. */
    ghost predicate Valid()
      reads this, flash.cells
    {
      FlashOk() && Reaches(start, events, View())
    }

    /** Records the step just taken. */
    ghost method Took(e: Event, before: World)
      requires FlashOk() && Reaches(start, events, before)
      requires Enabled(before, e) && View() == Next(before, e)
      modifies `events
      ensures events == old(events) + [e] && Valid()
    {
      ReachesRun(start, events, before);
      Extend(start, events, e);
      events := events + [e];
    }

    /** `aknano_init`: the settings of a fresh boot of the given image. */
    constructor (flash: Flash, slots: Slots, platform: Platform, image: uint32, position: uint8, stateRead: bool)
      requires HasStorage(flash) && flash.working
      requires ValidSlots(slots, flash.cells.Length) && ClearOfStorage(slots)
      ensures this.flash == flash && this.slots == slots && this.platform == platform
      ensures Valid() && events == [] && start == View()
      ensures boot == Boot(image, NoTrial) && imagePosition == position
    {
      this.flash, this.slots, this.platform := flash, slots, platform;
      boot := Boot(image, NoTrial);
      stored := StatePage(flash.cells[..]);
      events, start := [], Rebooted(StatePage(flash.cells[..]), Boot(image, NoTrial), stateRead);
      new;
      InitSettings(stateRead, position);
    }

    /** `aknano_init_settings`, and the image state read at the end of `aknano_init`. */
    method InitSettings(stateRead: bool, position: uint8)
      requires FlashOk()
      modifies this
      ensures FlashOk() && boot == old(boot) && stored == old(stored) && events == old(events)
      ensures CurrentRam() == BootedRam(stored, boot, stateRead) && phase == Idle && imagePosition == position
    {
      var s := LoadSettings(flash);
      SetUp(s, stateRead, position);
    }

    /** The fields of the settings, once the persisted ones were read. */
    method SetUp(s: Settings, stateRead: bool, position: uint8)
      modifies this
      ensures boot == old(boot) && stored == old(stored) && events == old(events)
      ensures CurrentRam() == RamWith(s, boot, stateRead) && phase == Idle && imagePosition == position
    {
      imagePosition := position;
      runningVersion := boot.Image();
      if runningVersion == UINT_MAX {
        runningVersion := 0;
      }
      settings := s;
      isRunningRolledBackImage :=
        s.lastApplied != 0 && s.lastApplied != runningVersion && s.correlationId[0] != 0;
      executedOnce := false;
      isImagePermanent := stateRead && boot.trial.NoTrial?;
      phase := Idle;
    }

    /** A reset at any moment: the bootloader picks the image, RAM is lost, the client starts again. */
    method Reboot(stateRead: bool, position: uint8)
      requires Valid()
      modifies this
      ensures Valid() && events == old(events) + [Reset(stateRead)]
      ensures imagePosition == position
    {
      ghost var before := View();
      boot := boot.AfterReset();
      InitSettings(stateRead, position);
      Took(Reset(stateRead), before);
    }

    method SaveCurrentSettings()
      requires FlashOk()
      modifies `stored, flash.cells
      ensures FlashOk() && stored == Page(settings)
      ensures SameExcept(old(flash.cells[..]), flash.cells[..], Start(State), Start(State) + SECTOR)
      ensures WithinBounds(old(flash.cells[..]), flash.cells[..], TargetSlot())
    {
      UpdateSettingsInFlash(flash, settings);
      stored := Page(settings);
    }

    /** `aknano_set_image_confirmed`. */
    method SetImageConfirmed()
      requires Valid() && phase.CheckedIn?
      modifies this
      ensures Valid() && events == old(events) + [ConfirmImage]
      ensures phase == Confirmed(old(phase.selected))
      ensures selectedTarget == old(selectedTarget) && imagePosition == old(imagePosition)
    {
      ghost var before := View();
      if !isImagePermanent {
        boot := boot.MadePermanent();
        isImagePermanent := true;
      }
      phase := Confirmed(phase.selected);
      Took(ConfirmImage, before);
    }

    /** The one thing `fill_event_payload` does to the settings: a missing correlation id is made up, so
        that an event never goes out without one. */
    method FillEventPayload(standIn: CorId)
      requires standIn[0] != 0
      modifies `settings
      ensures settings.correlationId[0] != 0
      ensures settings == old(settings).(correlationId := settings.correlationId)
      ensures settings.correlationId == old(settings.correlationId)
           || (old(settings.correlationId[0]) == 0 && settings.correlationId == standIn)
    {
      if settings.correlationId[0] == 0 {
        settings := settings.(correlationId := standIn);
      }
    }

    /** The event of that method, and what is remembered of it. */
    method SendInstallationResult(standIn: CorId)
      requires FlashOk() && standIn[0] != 0
      modifies `settings, `stored, flash.cells
      ensures FlashOk() && settings == ReportedSettings(old(CurrentRam())) && stored == Page(settings)
      ensures SameExcept(old(flash.cells[..]), flash.cells[..], Start(State), Start(State) + SECTOR)
      ensures WithinBounds(old(flash.cells[..]), flash.cells[..], TargetSlot())
    {
      FillEventPayload(standIn);
      if !isRunningRolledBackImage {
        settings := settings.(lastApplied := 0, lastConfirmed := runningVersion, nextRetryTime := 0, retryCount := 0);
      }
      settings := settings.(correlationId := NO_COR_ID);
      SaveCurrentSettings();
    }

    /** `aknano_send_installation_finished_event`. The identifier its event makes up does not last. */
    method SendInstallationFinishedEvent(standIn: CorId)
      requires Valid() && phase.Confirmed? && standIn[0] != 0
      modifies this, flash.cells
      ensures Valid() && events == old(events) + [ReportInstall]
      ensures phase == Reported(old(phase.selected))
      ensures selectedTarget == old(selectedTarget) && imagePosition == old(imagePosition)
      ensures SameExcept(old(flash.cells[..]), flash.cells[..], Start(State), Start(State) + SECTOR)
      ensures WithinBounds(old(flash.cells[..]), flash.cells[..], TargetSlot())
    {
      ghost var before := View();
      phase := Reported(phase.selected);
      if !executedOnce {
        executedOnce := true;
        var runningVersionReported := settings.lastConfirmed == runningVersion;
        if isRunningRolledBackImage || !runningVersionReported {
          SendInstallationResult(standIn);
        }
      }
      Took(ReportInstall, before);
    }

    /** `tuf_refresh`, as far as it stores role files. */
    method RefreshMetadata(files: seq<RoleFile>)
      requires FlashOk() && forall f | f in files :: HasRoom(f)
      modifies flash.cells
      ensures FlashOk() && LatestStored(flash.cells[..], files, |files|)
      ensures SameExcept(old(flash.cells[..]), flash.cells[..], Start(RoleRoot), STORAGE_END)
      ensures WithinBounds(old(flash.cells[..]), flash.cells[..], TargetSlot())
    {
      for k := 0 to |files|
        invariant FlashOk() && LatestStored(flash.cells[..], files, k)
        invariant SameExcept(old(flash.cells[..]), flash.cells[..], Start(RoleRoot), STORAGE_END)
      {
        ghost var cells := flash.cells[..];
        assert files[k] in files;
        RoleFileStays(files[k].role, |files[k].text|);
        var _ := WriteLocalFile(flash, files[k].role, files[k].text);
        LatestStep(cells, files, k);
      }
    }

    /** `parse_targets_metadata`, whose result is ignored: on an error no target stays selected. */
    method SelectTarget(turn: Turn)
      requires Valid() && ValidTurn(turn)
      modifies `selectedTarget
      ensures Valid() && Selects(turn, platform.hwid, selectedTarget) && selectedTarget.version != UINT_MAX
    {
      var _, target, scanned := ParseTargetsMetadata(turn.manifest, Some(platform.hwid), turn.tag);
      selectedTarget := target;
      assert CString(turn.tag) != [] && turn.manifest.TargetList? ==>
          ChosenAmong(turn.manifest.targets, Device(platform.hwid, turn.tag), scanned, target);
      SelectedIsOffered(turn, platform.hwid, target);
    }

    /** What follows in a successful check-in. */
    method ConfirmAndReport(standIn: CorId)
      requires Valid() && phase.Idle? && selectedTarget.version != UINT_MAX && standIn[0] != 0
      modifies this, flash.cells
      ensures Valid() && events == old(events) + AttendEvents(selectedTarget.version)
      ensures selectedTarget == old(selectedTarget) && imagePosition == old(imagePosition)
      ensures View() == Attended(old(View()), selectedTarget.version) && phase == Reported(selectedTarget.version)
      ensures SameExcept(old(flash.cells[..]), flash.cells[..], Start(State), Start(State) + SECTOR)
      ensures WithinBounds(old(flash.cells[..]), flash.cells[..], TargetSlot())
    {
      ghost var before, was := View(), events;
      phase := CheckedIn(selectedTarget.version);
      Took(CheckInOk(selectedTarget.version), before);
      SetImageConfirmed();
      SendInstallationFinishedEvent(standIn);
      assert events == was + AttendEvents(selectedTarget.version);
      ReachesRun(start, was, before);
      ReachesRun(start, events, View());
      AttendRuns(start, was, selectedTarget.version);
    }

    /** `aknano_checkin` with the self-test declared passed, as the sample loop does: role files are
        stored whatever comes of it; on success a target is selected, the image confirmed and the
        installation reported. */
    method CheckIn(turn: Turn) returns (result: int)
      requires Valid() && phase.Idle? && ValidTurn(turn) && selectedTarget == NoTarget()
      modifies this, flash.cells
      ensures Valid() && (result == 0 <==> turn.checkInOk)
      ensures selectedTarget.version != UINT_MAX && imagePosition == old(imagePosition)
      ensures turn.checkInOk ==>
                && events == old(events) + AttendEvents(selectedTarget.version)
                && View() == Attended(old(View()), selectedTarget.version)
                && phase == Reported(selectedTarget.version) && Selects(turn, platform.hwid, selectedTarget)
      ensures !turn.checkInOk ==> events == old(events) + [CheckInFailed] && View() == old(View())
      ensures WithinBounds(old(flash.cells[..]), flash.cells[..], TargetSlot())
      ensures LatestStored(flash.cells[..], turn.refresh, |turn.refresh|)
    {
      ghost var before := View();
      RefreshMetadata(turn.refresh);
      if turn.checkInOk {
        SelectTarget(turn);
        ghost var cells := flash.cells[..];
        ConfirmAndReport(turn.standIn);
        LatestStays(cells, flash.cells[..], turn.refresh);
        result := 0;
      } else {
        Took(CheckInFailed, before);
        result := CHECK_IN_ERROR;
      }
    }

    /** `aknano_is_rollback`. */
    predicate IsRollback()
      reads this
    {
      selectedTarget.version == settings.lastApplied
    }

    /** The random identifier of the update's events (`aknano_gen_serial_and_uuid`). */
    method GenerateCorrelationId(turn: Turn)
      requires Valid() && phase == Reported(selectedTarget.version) && ValidTurn(turn)
      requires UpdateRequired(CurrentRam(), selectedTarget.version, turn.now)
      modifies this
      ensures Valid() && events == old(events) + [StartInstall(turn.now, turn.uuid)]
      ensures phase == Installing(selectedTarget.version) && settings.correlationId[0] != 0
      ensures selectedTarget == old(selectedTarget) && imagePosition == old(imagePosition)
    {
      ghost var before := View();
      settings := settings.(correlationId := WithNewId(settings.correlationId, turn.uuid));
      phase := Installing(selectedTarget.version);
      Took(StartInstall(turn.now, turn.uuid), before);
    }

    /** `aknano_download_and_flash_image`. */
    method FetchUpdate(turn: Turn) returns (downloadOk: bool)
      requires Valid()
      modifies flash.cells
      ensures Valid() && WithinBounds(old(flash.cells[..]), flash.cells[..], TargetSlot())
      ensures SameExcept(old(flash.cells[..]), flash.cells[..], TargetSlot(), TargetSlot() + MAX_FIRMWARE_SIZE)
      ensures downloadOk ==> HoldsUpdate(flash.cells[..], imagePosition, selectedTarget, turn.replies)
      ensures DownloadDecided(platform, turn, selectedTarget, downloadOk)
    {
      var network := new NetworkContext(turn.replies);
      ghost var received;
      downloadOk, received :=
        DownloadAndFlashImage(network, turn.connected, flash, imagePosition, slots,
                              selectedTarget.expectedSize, selectedTarget.expectedHash,
                              platform.sha256, platform.verifyImage);
    }

    /** The new image's version goes on record in RAM, with the events of a completed download. */
    method ApplyUpdate(standIn: CorId)
      requires Valid() && phase == Installing(selectedTarget.version)
      requires settings.correlationId[0] != 0 && standIn[0] != 0
      modifies this
      ensures Valid() && events == old(events) + [DownloadDone]
      ensures selectedTarget == old(selectedTarget) && imagePosition == old(imagePosition)
      ensures phase == Downloaded(selectedTarget.version)
    {
      ghost var before := View();
      FillEventPayload(standIn);
      FillEventPayload(standIn);
      settings := settings.(lastApplied := selectedTarget.version);
      FillEventPayload(standIn);
      phase := Downloaded(selectedTarget.version);
      Took(DownloadDone, before);
    }

    /** The event of a failed download. */
    method ReportFailedDownload(standIn: CorId)
      requires Valid() && phase == Installing(selectedTarget.version)
      requires settings.correlationId[0] != 0 && standIn[0] != 0
      modifies this
      ensures Valid() && events == old(events) + [DownloadFailed]
      ensures selectedTarget == old(selectedTarget) && imagePosition == old(imagePosition)
      ensures phase == Finishing(selectedTarget.version, false)
    {
      ghost var before := View();
      FillEventPayload(standIn);
      phase := Finishing(selectedTarget.version, false);
      Took(DownloadFailed, before);
    }

    /** The download, and what follows from its result. */
    method DownloadAndApply(turn: Turn) returns (downloadOk: bool)
      requires Valid() && phase == Installing(selectedTarget.version)
      requires settings.correlationId[0] != 0 && turn.standIn[0] != 0
      modifies this, flash.cells
      ensures Valid()
      ensures selectedTarget == old(selectedTarget) && imagePosition == old(imagePosition)
      ensures events == old(events) + [if downloadOk then DownloadDone else DownloadFailed]
      ensures phase ==
              if downloadOk then Downloaded(selectedTarget.version) else Finishing(selectedTarget.version, false)
      ensures WithinBounds(old(flash.cells[..]), flash.cells[..], TargetSlot())
      ensures downloadOk ==> HoldsUpdate(flash.cells[..], imagePosition, selectedTarget, turn.replies)
      ensures DownloadDecided(platform, turn, selectedTarget, downloadOk)
    {
      FillEventPayload(turn.standIn);
      downloadOk := FetchUpdate(turn);
      if downloadOk {
        ApplyUpdate(turn.standIn);
      } else {
        ReportFailedDownload(turn.standIn);
      }
    }

    /** `aknano_set_image_ready_for_test`, and the retry bookkeeping that follows it. */
    method SetImageReadyForTest(turn: Turn)
      requires Valid() && phase == Downloaded(selectedTarget.version)
      modifies this
      ensures Valid()
      ensures selectedTarget == old(selectedTarget) && imagePosition == old(imagePosition)
      ensures events == old(events) + [MarkReadyForTest(turn.readyOk, turn.retryTime)]
      ensures phase == Finishing(selectedTarget.version, turn.readyOk)
    {
      ghost var before := View();
      if turn.readyOk {
        boot := boot.MadeReadyForTest(selectedTarget.version);
        settings := settings.(retryCount := Increment(settings.retryCount), nextRetryTime := turn.retryTime);
      }
      phase := Finishing(selectedTarget.version, turn.readyOk);
      Took(MarkReadyForTest(turn.readyOk, turn.retryTime), before);
    }

    /** The download and, if it succeeded, marking the image. */
    method DownloadAndMark(turn: Turn) returns (downloadOk: bool, isRebootRequired: bool)
      requires Valid() && phase == Installing(selectedTarget.version)
      requires settings.correlationId[0] != 0 && turn.standIn[0] != 0
      modifies this, flash.cells
      ensures Valid()
      ensures selectedTarget == old(selectedTarget) && imagePosition == old(imagePosition)
      ensures isRebootRequired <==> downloadOk && turn.readyOk
      ensures events == old(events)
                        + (if downloadOk then [DownloadDone] + [MarkReadyForTest(turn.readyOk, turn.retryTime)]
                           else [DownloadFailed])
      ensures phase == Finishing(selectedTarget.version, isRebootRequired)
      ensures WithinBounds(old(flash.cells[..]), flash.cells[..], TargetSlot())
      ensures downloadOk ==> HoldsUpdate(flash.cells[..], imagePosition, selectedTarget, turn.replies)
      ensures DownloadDecided(platform, turn, selectedTarget, downloadOk)
    {
      isRebootRequired := false;
      downloadOk := DownloadAndApply(turn);
      if downloadOk {
        SetImageReadyForTest(turn);
        isRebootRequired := turn.readyOk;
      }
    }

    /** Saving the settings, which leaves an update in its slot. */
    method FinishInstall(isRebootRequired: bool, ghost before: seq<uint8>, ghost replies: seq<Reply>)
      requires Valid() && phase == Finishing(selectedTarget.version, isRebootRequired)
      requires WithinBounds(before, flash.cells[..], TargetSlot())
      modifies this, flash.cells
      ensures Valid() && events == old(events) + [SaveSettings]
      ensures selectedTarget == old(selectedTarget) && imagePosition == old(imagePosition)
      ensures phase == if isRebootRequired then Rebooting else Idle
      ensures WithinBounds(before, flash.cells[..], TargetSlot())
      ensures HoldsUpdate(old(flash.cells[..]), imagePosition, selectedTarget, replies)
              ==> HoldsUpdate(flash.cells[..], imagePosition, selectedTarget, replies)
    {
      ghost var was, cells := View(), flash.cells[..];
      SaveCurrentSettings();
      WithinBoundsTrans(before, cells, flash.cells[..], TargetSlot());
      if HoldsUpdate(cells, imagePosition, selectedTarget, replies) {
        UpdateStays(cells, flash.cells[..], imagePosition, selectedTarget, replies);
      }
      phase := if isRebootRequired then Rebooting else Idle;
      Took(SaveSettings, was);
    }

    /** `aknano_install_selected_target`: true when a reboot is required, and then the slot has the
        selected target. */
    method InstallSelectedTarget(turn: Turn) returns (isRebootRequired: bool, ghost downloadOk: bool)
      requires Valid() && phase == Reported(selectedTarget.version) && ValidTurn(turn)
      requires UpdateRequired(CurrentRam(), selectedTarget.version, turn.now)
      modifies this, flash.cells
      ensures Valid()
      ensures selectedTarget == old(selectedTarget) && imagePosition == old(imagePosition)
      ensures isRebootRequired <==> downloadOk && turn.readyOk
      ensures phase == if isRebootRequired then Rebooting else Idle
      ensures events == old(events) + InstallEvents(turn, downloadOk)
      ensures WithinBounds(old(flash.cells[..]), flash.cells[..], TargetSlot())
      ensures isRebootRequired ==> HoldsUpdate(flash.cells[..], imagePosition, selectedTarget, turn.replies)
      ensures DownloadDecided(platform, turn, selectedTarget, downloadOk)
    {
      ghost var was, cells := events, flash.cells[..];
      GenerateCorrelationId(turn);
      var downloaded;
      downloaded, isRebootRequired := DownloadAndMark(turn);
      FinishInstall(isRebootRequired, cells, turn.replies);
      InstallSteps(was, turn, downloaded);
      downloadOk := downloaded;
    }

    /** Every version above the running one is installed, save the one on record as applied. */
    lemma RequiredIff(now: int)
      requires Valid() && phase.Reported?
      ensures UpdateRequired(CurrentRam(), phase.selected, now)
              <==> runningVersion < phase.selected != settings.lastApplied
    {
      ReachesRun(start, events, View());
      ProtocolSafety.FreshInv(start);
      ProtocolSafety.InvRun(start, events);
      ProtocolDecisions.UpdateRequiredIff(View(), now);
    }

    /** What the sample loop does after a successful check-in. */
    method HandleSelection(turn: Turn) returns (isRebootRequired: bool, ghost downloadOk: bool)
      requires Valid() && phase == Reported(selectedTarget.version) && ValidTurn(turn)
      modifies this, flash.cells
      ensures Valid()
      ensures selectedTarget == old(selectedTarget) && imagePosition == old(imagePosition)
      ensures events == old(events) + DecisionEvents(old(View()), turn, Outcome(selectedTarget, downloadOk))
      ensures phase == if isRebootRequired then Rebooting else Idle
      ensures WithinBounds(old(flash.cells[..]), flash.cells[..], TargetSlot())
      ensures isRebootRequired ==> HoldsUpdate(flash.cells[..], imagePosition, selectedTarget, turn.replies)
      ensures old(UpdateRequired(CurrentRam(), selectedTarget.version, turn.now)) ==>
                && DownloadDecided(platform, turn, selectedTarget, downloadOk)
                && (isRebootRequired <==> downloadOk && turn.readyOk)
      ensures |events| > |old(events)|
      ensures events[|old(events)|].StartInstall?
              <==> old(runningVersion) < selectedTarget.version != old(settings.lastApplied)
    {
      RequiredIff(turn.now);
      var isUpdateRequired := false;
      isRebootRequired, downloadOk := false, false;
      if selectedTarget.version != NO_VERSION {
        var isRollback := IsRollback();
        var shouldRetryRollback := isRollback && ShouldRetryRollback(settings, turn.now);
        isUpdateRequired := !(isRollback && !shouldRetryRollback) && runningVersion < selectedTarget.version;
      }
      if isUpdateRequired {
        isRebootRequired, downloadOk := InstallSelectedTarget(turn);
      } else {
        ghost var before := View();
        phase := Idle;
        Took(SkipInstall(turn.now), before);
      }
    }

    /** The body of the sample loop up to the watchdog, for the next of the turns. */
    method Iterate(turn: Turn, ghost turns: seq<Turn>, ghost history: seq<seq<Event>>, ghost outcomes: seq<Outcome>,
                   ghost before: seq<uint8>)
      returns (result: int, isRebootRequired: bool, ghost o: Outcome)
      requires Valid() && phase.Idle? && ValidTurns(turns)
      requires FollowsTurns(start, platform, history, turns, outcomes) && |outcomes| < |turns|
      requires turns[|outcomes|] == turn && history[|outcomes|] == events
      requires WithinBounds(before, flash.cells[..], TargetSlot())
      modifies this, flash.cells
      ensures Valid() && imagePosition == old(imagePosition)
      ensures FollowsTurns(start, platform, history + [events], turns, outcomes + [o])
      ensures result == 0 <==> turn.checkInOk
      ensures result != 0 ==> !isRebootRequired && isImagePermanent == old(isImagePermanent)
      ensures phase == if isRebootRequired then Rebooting else Idle
      ensures isRebootRequired ==>
                && o.target == selectedTarget
                && HoldsUpdate(flash.cells[..], imagePosition, selectedTarget, turn.replies)
      ensures WithinBounds(before, flash.cells[..], TargetSlot())
    {
      assert ValidTurnAt(turns, |outcomes|);
      isRebootRequired := false;
      ReachesRun(start, events, View());
      ghost var was, cells, downloadOk := events, flash.cells[..], false;
      selectedTarget := NoTarget();
      result := CheckIn(turn);
      WithinBoundsTrans(before, cells, flash.cells[..], TargetSlot());
      if result == 0 {
        cells := flash.cells[..];
        isRebootRequired, downloadOk := HandleSelection(turn);
        WithinBoundsTrans(before, cells, flash.cells[..], TargetSlot());
      }
      o := Outcome(selectedTarget, downloadOk);
      if turn.checkInOk {
        Associative(was, AttendEvents(o.target.version),
                    DecisionEvents(Attended(Exec(start, was), o.target.version), turn, o));
      }
      OneMoreTurn(start, platform, history, turns, outcomes, events, o);
    }

    /** The loop gives up on a temporary image that has never checked in once it is overdue. */
    predicate WatchdogFires(anyCheckInOk: bool, turn: Turn, startupEpoch: int)
      reads this
    {
      !anyCheckInOk && !isImagePermanent && IsOverdue(turn, startupEpoch)
    }

    /** An iteration with the watchdog: whether the loop ends in a reboot, or goes on to the next. */
    method RunIteration(turns: seq<Turn>, used: nat, startupEpoch: int, wasCheckInOk: bool,
                        ghost history: seq<seq<Event>>, ghost outcomes: seq<Outcome>,
                        ghost before: seq<uint8>, ghost wasPermanent: bool)
      returns (anyCheckInOk: bool, rebooted: bool, ghost ending: Ending, ghost o: Outcome)
      requires Valid() && phase.Idle? && ValidTurns(turns) && used == |outcomes| < |turns|
      requires FollowsTurns(start, platform, history, turns, outcomes) && history[used] == events
      requires WithinBounds(before, flash.cells[..], TargetSlot())
      requires Waiting(turns, startupEpoch, wasPermanent, used, wasCheckInOk)
      requires wasCheckInOk || isImagePermanent == wasPermanent
      modifies this, flash.cells
      ensures Valid() && imagePosition == old(imagePosition)
      ensures FollowsTurns(start, platform, history + [events], turns, outcomes + [o])
      ensures WithinBounds(before, flash.cells[..], TargetSlot())
      ensures phase == if ending == UpdateInstalled then Rebooting else Idle
      ensures ending == UpdateInstalled ==>
                && o.target == selectedTarget
                && HoldsUpdate(flash.cells[..], imagePosition, selectedTarget, turns[used].replies)
      ensures rebooted <==> ending != TurnsOver
      ensures rebooted ==> Stopped(turns, startupEpoch, wasPermanent, used + 1, ending)
      ensures !rebooted ==> Waiting(turns, startupEpoch, wasPermanent, used + 1, anyCheckInOk)
      ensures anyCheckInOk || isImagePermanent == wasPermanent
    {
      var result, isRebootRequired;
      result, isRebootRequired, o := Iterate(turns[used], turns, history, outcomes, before);
      anyCheckInOk := wasCheckInOk || result == 0;
      rebooted := isRebootRequired || WatchdogFires(anyCheckInOk, turns[used], startupEpoch);
      WaitOrStop(turns, startupEpoch, wasPermanent, used + 1, wasCheckInOk, anyCheckInOk, isRebootRequired);
      ending := if isRebootRequired then UpdateInstalled else if rebooted then WatchdogFired else TurnsOver;
    }

    /** `aknano_sample_loop`, from its initialization on, with a bound on the iterations. */
    method SampleLoop(turns: seq<Turn>, startupEpoch: int)
      returns (rebooted: bool, used: nat, ghost ending: Ending,
               ghost history: seq<seq<Event>>, ghost outcomes: seq<Outcome>)
      requires Valid() && phase.Idle? && ValidTurns(turns)
      modifies this, flash.cells
      ensures Valid()
      ensures |history| == used + 1 && history[0] == old(events) && history[used] == events
      ensures FollowsTurns(start, platform, history, turns, outcomes)
      ensures Stopped(turns, startupEpoch, old(isImagePermanent), used, ending)
      ensures (rebooted <==> ending != TurnsOver) && phase == if ending == UpdateInstalled then Rebooting else Idle
      ensures ending == UpdateInstalled ==>
                && outcomes[used - 1].target == selectedTarget
                && HoldsUpdate(flash.cells[..], imagePosition, selectedTarget, turns[used - 1].replies)
      ensures imagePosition == old(imagePosition)
      ensures WithinBounds(old(flash.cells[..]), flash.cells[..], TargetSlot())
      ensures Preserved(old(flash.cells[..]), flash.cells[..], imagePosition, slots)
    {
      rebooted, used, ending := false, 0, TurnsOver;
      history, outcomes := [events], [];
      var anyCheckInOk := false;
      ghost var wasPermanent, cells := isImagePermanent, flash.cells[..];
      while used < |turns|
        invariant 0 <= used <= |turns| && !rebooted && ending == TurnsOver && Valid() && phase.Idle?
        invariant |history| == used + 1 && history[0] == old(events) && history[used] == events
        invariant FollowsTurns(start, platform, history, turns, outcomes)
        invariant anyCheckInOk || isImagePermanent == wasPermanent
        invariant Waiting(turns, startupEpoch, wasPermanent, used, anyCheckInOk)
        invariant imagePosition == old(imagePosition) && WithinBounds(cells, flash.cells[..], TargetSlot())
      {
        ghost var o;
        anyCheckInOk, rebooted, ending, o :=
          RunIteration(turns, used, startupEpoch, anyCheckInOk, history, outcomes, cells, wasPermanent);
        history, outcomes := history + [events], outcomes + [o];
        used := used + 1;
        if rebooted {
          break;
        }
      }
      WithinBoundsPreserves(cells, flash.cells[..], imagePosition, slots);
    }
  }

  /** None of the first `n` check-ins succeeded. */
  ghost predicate AllFailed(turns: seq<Turn>, n: nat)
    requires n <= |turns|
  {
    forall k | 0 <= k < n :: FailedAt(turns, k)
  }

  predicate FailedAt(turns: seq<Turn>, k: nat)
    requires k < |turns|
  {
    !turns[k].checkInOk
  }

  /** On a temporary image the watchdog has to fire in iteration `k`: no check-in has succeeded so far and
      the loop is overdue. */
  ghost predicate FiresAt(turns: seq<Turn>, startupEpoch: int, k: nat)
    requires k < |turns|
  {
    AllFailed(turns, k + 1) && IsOverdue(turns[k], startupEpoch)
  }

  ghost predicate NeverFires(turns: seq<Turn>, startupEpoch: int, n: nat)
    requires n <= |turns|
  {
    forall k | 0 <= k < n :: !FiresAt(turns, startupEpoch, k)
  }

  /** The loop goes on after `used` iterations. */
  ghost predicate Waiting(turns: seq<Turn>, startupEpoch: int, wasPermanent: bool, used: nat, anyCheckInOk: bool) {
    && used <= |turns| && (anyCheckInOk <==> !AllFailed(turns, used))
    && (wasPermanent || NeverFires(turns, startupEpoch, used))
  }

  /** How the loop ends: there are no more turns, an update was installed after a successful check-in, or
      the watchdog has fired, which it does in the first iteration that it has to. */
  datatype Ending = TurnsOver | UpdateInstalled | WatchdogFired

  ghost predicate Stopped(turns: seq<Turn>, startupEpoch: int, wasPermanent: bool, used: nat, ending: Ending) {
    match ending
    case TurnsOver =>
      used == |turns| && (wasPermanent || NeverFires(turns, startupEpoch, used))
    case UpdateInstalled =>
      && 0 < used <= |turns| && turns[used - 1].checkInOk
      && (wasPermanent || NeverFires(turns, startupEpoch, used))
    case WatchdogFired =>
      && 0 < used <= |turns| && !wasPermanent
      && FiresAt(turns, startupEpoch, used - 1) && NeverFires(turns, startupEpoch, used - 1)
  }

  /** The watchdog only fires on a temporary image, if no check-in has succeeded, and in the first
      iteration that ends more than 180 seconds after the start. */
  lemma WatchdogMeans(turns: seq<Turn>, startupEpoch: int, wasPermanent: bool, used: nat)
    requires Stopped(turns, startupEpoch, wasPermanent, used, WatchdogFired)
    ensures !wasPermanent && 0 < used <= |turns| && turns[used - 1].epoch > startupEpoch + 180
    ensures forall k | 0 <= k < used :: !turns[k].checkInOk
    ensures forall k | 0 <= k < used - 1 :: turns[k].epoch <= startupEpoch + 180
  {
    forall k | 0 <= k < used ensures !turns[k].checkInOk {
      assert FailedAt(turns, k);
    }
    forall k | 0 <= k < used - 1 ensures turns[k].epoch <= startupEpoch + 180 {
      assert !FiresAt(turns, startupEpoch, k);
      assert forall j | 0 <= j < k + 1 :: FailedAt(turns, j);
    }
  }

  /** And on a temporary image it always does. */
  lemma NoWatchdogMeans(turns: seq<Turn>, startupEpoch: int, used: nat, ending: Ending, k: nat)
    requires Stopped(turns, startupEpoch, false, used, ending) && ending != WatchdogFired && k < used
    requires forall j | 0 <= j <= k :: !turns[j].checkInOk
    ensures turns[k].epoch <= startupEpoch + 180
  {
    assert !FiresAt(turns, startupEpoch, k);
    assert forall j | 0 <= j < k + 1 :: FailedAt(turns, j);
  }

  lemma WaitOrStop(turns: seq<Turn>, startupEpoch: int, wasPermanent: bool, used: nat, before: bool,
                   anyCheckInOk: bool, installed: bool)
    requires 0 < used <= |turns| && Waiting(turns, startupEpoch, wasPermanent, used - 1, before)
    requires anyCheckInOk == (before || turns[used - 1].checkInOk)
    requires installed ==> turns[used - 1].checkInOk
    ensures if installed then Stopped(turns, startupEpoch, wasPermanent, used, UpdateInstalled)
            else if !anyCheckInOk && !wasPermanent && IsOverdue(turns[used - 1], startupEpoch)
            then Stopped(turns, startupEpoch, wasPermanent, used, WatchdogFired)
            else Waiting(turns, startupEpoch, wasPermanent, used, anyCheckInOk)
  {
    assert AllFailed(turns, used) <==> AllFailed(turns, used - 1) && FailedAt(turns, used - 1);
  }

  /** More than three minutes have gone by since the loop was started. */
  predicate IsOverdue(turn: Turn, startupEpoch: int) {
    turn.epoch > startupEpoch + MAX_OFFLINE_TIME_ON_TEMP_IMAGE
  }

  /** A clock that does not run backwards and that each delay advances by at least its length. */
  ghost predicate ClockAdvances(turns: seq<Turn>, startupEpoch: int) {
    && (|turns| > 0 ==> startupEpoch <= turns[0].epoch)
    && (forall i | 0 <= i < |turns| - 1 ::
          turns[i + 1].epoch >= turns[i].epoch + LimitSleepTime(turns[i].pollingInterval))
  }

  lemma {:induction false} ClockAfter(turns: seq<Turn>, startupEpoch: int, i: nat)
    requires ClockAdvances(turns, startupEpoch) && i < |turns|
    ensures turns[i].epoch >= startupEpoch + 5 * i
  {
    if i > 0 {
      ClockAfter(turns, startupEpoch, i - 1);
    }
  }

  /** Offline on a temporary image, the loop asks for a reboot by its 38th iteration, whatever the polling
      interval: the watchdog fires, in the first iteration that is overdue. */
  method OfflineTrialEnds(client: Client, turns: seq<Turn>, startupEpoch: int)
    returns (rebooted: bool, used: nat, ghost history: seq<seq<Event>>, ghost outcomes: seq<Outcome>)
    requires client.Valid() && client.phase.Idle? && !client.isImagePermanent
    requires ValidTurns(turns) && AllFailed(turns, |turns|)
    requires |turns| >= 38 && ClockAdvances(turns, startupEpoch)
    modifies client, client.flash.cells
    ensures client.Valid() && rebooted && !client.phase.Rebooting? && 0 < used <= 38
    ensures turns[used - 1].epoch > startupEpoch + 180
    ensures forall k | 0 <= k < used - 1 :: turns[k].epoch <= startupEpoch + 180
    ensures |history| == used + 1 && history[0] == old(client.events) && history[used] == client.events
    ensures FollowsTurns(client.start, client.platform, history, turns, outcomes)
  {
    ghost var ending;
    rebooted, used, ending, history, outcomes := client.SampleLoop(turns, startupEpoch);
    OfflineEnding(turns, startupEpoch, used, ending);
  }

  /** Why that is so: offline on a temporary image no other end of the loop is possible. */
  lemma OfflineEnding(turns: seq<Turn>, startupEpoch: int, used: nat, ending: Ending)
    requires AllFailed(turns, |turns|) && |turns| >= 38 && ClockAdvances(turns, startupEpoch)
    requires Stopped(turns, startupEpoch, false, used, ending)
    ensures ending == WatchdogFired && 0 < used <= 38
    ensures turns[used - 1].epoch > startupEpoch + 180
    ensures forall k | 0 <= k < used - 1 :: turns[k].epoch <= startupEpoch + 180
  {
    ClockAfter(turns, startupEpoch, 37);
    AllFailedPrefixes(turns);
    assert FiresAt(turns, startupEpoch, 37);
    if 0 < used <= |turns| {
      assert FailedAt(turns, used - 1);
    }
    WatchdogMeans(turns, startupEpoch, false, used);
  }

  lemma AllFailedPrefixes(turns: seq<Turn>)
    requires AllFailed(turns, |turns|)
    ensures forall n | 0 <= n <= |turns| :: AllFailed(turns, n)
  {
  }
}
