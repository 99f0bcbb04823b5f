/**
 The install, confirm and roll-back protocol across reboots, as a transition system
 (`src/aknano_api.c`, `src/aknano.c`). Its state is the settings page in flash, the bootloader's image
 state, the settings in RAM and the point the sample loop has reached; a reset may come between any
 two steps.

 Of the bootloader only this is assumed: an image marked ready for test runs after the next reset, and
 the reset after that goes back to the permanent (fallback) image unless the running image was made
 permanent first. Marking an image permanent succeeds, and so does writing the settings page.
 */
module Protocol {
  import opened Bytes
  import opened SettingsPage

  datatype Trial = NoTrial | Pending(image: uint32) | Testing(image: uint32)

  datatype Boot = Boot(fallback: uint32, trial: Trial) {
    /** The build number of the image that is running. */
    function Image(): uint32 {
      if trial.Testing? then trial.image else fallback
    }

    function AfterReset(): Boot {
      match trial
      case NoTrial => this
      case Pending(image) => Boot(fallback, Testing(image))
      case Testing(_) => Boot(fallback, NoTrial)
    }

    function MadePermanent(): Boot {
      if trial.Testing? then Boot(trial.image, NoTrial) else this
    }

    function MadeReadyForTest(image: uint32): Boot {
      Boot(fallback, Pending(image))
    }
  }

  /** The version the client reports for a build number; UINT_MAX is the bootloader's "unknown". */
  function VersionOf(image: uint32): uint32 {
    if image == UINT_MAX then 0 else image
  }

  datatype Ram = Ram(
    running: uint32,
    settings: Settings,
    isRolledBack: bool,
    isPermanent: bool,
    executedOnce: bool)

  /** How far the sample loop has come, with the version selected at the check-in. */
  datatype Phase =
    | Idle
    | CheckedIn(selected: uint32)
    | Confirmed(selected: uint32)
    | Reported(selected: uint32)
    | Installing(selected: uint32)
    | Downloaded(selected: uint32)
    | Finishing(selected: uint32, reboot: bool)
    | Rebooting

  datatype World = World(page: PageBytes, boot: Boot, ram: Ram, phase: Phase)

  /** What the environment decides is part of the event. */
  datatype Event =
    | CheckInFailed
    | CheckInOk(selected: uint32)
    | ConfirmImage
    | ReportInstall
    | SkipInstall(now: int)
    | StartInstall(now: int, uuid: seq<uint8>)
    | DownloadFailed
    | DownloadDone
    | MarkReadyForTest(ok: bool, retryTime: uint32)
    | SaveSettings
    | Reset(stateRead: bool)

  const MAX_ROLLED_BACK_VERSION_RETRIES := 0

  /** `is_running_rolled_back_image`: an update was applied, another version runs, and the update's
      correlation id is still there. */
  predicate RolledBack(s: Settings, running: uint32) {
    s.lastApplied != 0 && s.lastApplied != running && s.correlationId[0] != 0
  }

  /** RAM after a boot (`aknano_init`). */
  function BootedRam(page: PageBytes, boot: Boot, stateRead: bool): Ram {
    RamWith(Decode(page), boot, stateRead)
  }

  function RamWith(s: Settings, boot: Boot, stateRead: bool): Ram {
    var running := VersionOf(boot.Image());
    Ram(running, s, RolledBack(s, running), stateRead && boot.trial.NoTrial?, false)
  }

  predicate ShouldRetryRollback(s: Settings, now: int) {
    s.retryCount < MAX_ROLLED_BACK_VERSION_RETRIES && s.nextRetryTime <= now
  }

  /** The sample loop's decision once a check-in selected a version (0 for none). */
  predicate UpdateRequired(ram: Ram, selected: uint32, now: int) {
    && selected != 0
    && (selected == ram.settings.lastApplied ==> ShouldRetryRollback(ram.settings, now))
    && ram.running < selected
  }

  function WithNewId(id: CorId, uuid: seq<uint8>): CorId
    requires |uuid| == 36
  {
    uuid + [0] + id[37..]
  }

  /** Whether `aknano_send_installation_finished_event` has something to report: once per boot, and only
      a roll-back or a version not yet confirmed. */
  predicate MustReport(ram: Ram) {
    !ram.executedOnce && (ram.isRolledBack || ram.settings.lastConfirmed != ram.running)
  }

  /** The settings it then leaves, in RAM and in flash. */
  function ReportedSettings(ram: Ram): Settings {
    if ram.isRolledBack then ram.settings.(correlationId := NO_COR_ID)
    else ram.settings.(lastApplied := 0, lastConfirmed := ram.running, correlationId := NO_COR_ID,
                       retryCount := 0, nextRetryTime := 0)
  }

  function AfterReport(w: World): World
    requires w.phase.Confirmed?
  {
    if MustReport(w.ram) then
      w.(page := Page(ReportedSettings(w.ram)),
         ram := w.ram.(settings := ReportedSettings(w.ram), executedOnce := true),
         phase := Reported(w.phase.selected))
    else
      w.(ram := w.ram.(executedOnce := true), phase := Reported(w.phase.selected))
  }

  function AfterMark(w: World, ok: bool, retryTime: uint32): World
    requires w.phase.Downloaded?
  {
    if ok then
      w.(boot := w.boot.MadeReadyForTest(w.phase.selected),
         ram := w.ram.(settings := w.ram.settings.(retryCount := Increment(w.ram.settings.retryCount),
                                                   nextRetryTime := retryTime)),
         phase := Finishing(w.phase.selected, true))
    else
      w.(phase := Finishing(w.phase.selected, false))
  }

  function Rebooted(page: PageBytes, boot: Boot, stateRead: bool): World {
    World(page, boot, BootedRam(page, boot, stateRead), Idle)
  }

  predicate Enabled(w: World, e: Event) {
    match e
    case CheckInFailed => w.phase.Idle?
    case CheckInOk(selected) => w.phase.Idle? && selected != UINT_MAX
    case ConfirmImage => w.phase.CheckedIn?
    case ReportInstall => w.phase.Confirmed?
    case SkipInstall(now) => w.phase.Reported? && !UpdateRequired(w.ram, w.phase.selected, now)
    case StartInstall(now, uuid) => w.phase.Reported? && UpdateRequired(w.ram, w.phase.selected, now) && IsUuid(uuid)
    case DownloadFailed => w.phase.Installing?
    case DownloadDone => w.phase.Installing?
    case MarkReadyForTest(_, _) => w.phase.Downloaded?
    case SaveSettings => w.phase.Finishing?
    case Reset(_) => true
  }

  function Next(w: World, e: Event): World
    requires Enabled(w, e)
  {
    match e
    case CheckInFailed => w
    case CheckInOk(selected) => w.(phase := CheckedIn(selected))
    case ConfirmImage =>
      w.(boot := if w.ram.isPermanent then w.boot else w.boot.MadePermanent(),
         ram := w.ram.(isPermanent := true),
         phase := Confirmed(w.phase.selected))
    case ReportInstall => AfterReport(w)
    case SkipInstall(_) => w.(phase := Idle)
    case StartInstall(_, uuid) =>
      w.(ram := w.ram.(settings := w.ram.settings.(correlationId := WithNewId(w.ram.settings.correlationId, uuid))),
         phase := Installing(w.phase.selected))
    case DownloadFailed => w.(phase := Finishing(w.phase.selected, false))
    case DownloadDone =>
      w.(ram := w.ram.(settings := w.ram.settings.(lastApplied := w.phase.selected)),
         phase := Downloaded(w.phase.selected))
    case MarkReadyForTest(ok, retryTime) => AfterMark(w, ok, retryTime)
    case SaveSettings => w.(page := Page(w.ram.settings), phase := if w.phase.reboot then Rebooting else Idle)
    case Reset(stateRead) => Rebooted(w.page, w.boot.AfterReset(), stateRead)
  }

  /** A device as it leaves the factory, or any other that boots a permanent image. */
  predicate Fresh(w: World) {
    && w.phase == Idle
    && w.boot.trial == NoTrial
    && w.ram == BootedRam(w.page, w.boot, w.ram.isPermanent)
  }

  // ---------- runs ----------

  predicate CanRun(w: World, events: seq<Event>)
    decreases |events|, 0
  {
    events == [] ||
    var n := |events| - 1;
    CanRun(w, events[..n]) && Enabled(Exec(w, events[..n]), events[n])
  }

  function Exec(w: World, events: seq<Event>): World
    requires CanRun(w, events)
    decreases |events|, 1
  {
    if events == [] then w
    else
      var n := |events| - 1;
      Next(Exec(w, events[..n]), events[n])
  }

  lemma Extend(w: World, events: seq<Event>, e: Event)
    requires CanRun(w, events) && Enabled(Exec(w, events), e)
    ensures CanRun(w, events + [e]) && Exec(w, events + [e]) == Next(Exec(w, events), e)
  {
    assert (events + [e])[..|events|] == events;
  }

  lemma {:induction false} PrefixRuns(w: World, events: seq<Event>, k: nat)
    requires CanRun(w, events) && k <= |events|
    ensures CanRun(w, events[..k])
    ensures k < |events| ==> Enabled(Exec(w, events[..k]), events[k])
  {
    var n := |events| - 1;
    if k == |events| {
      assert events[..k] == events;
    } else if k < n {
      PrefixRuns(w, events[..n], k);
      assert events[..n][..k] == events[..k];
    }
  }

  lemma {:induction false} RunsCompose(w: World, first: seq<Event>, second: seq<Event>)
    requires CanRun(w, first) && CanRun(Exec(w, first), second)
    ensures CanRun(w, first + second) && Exec(w, first + second) == Exec(Exec(w, first), second)
  {
    if second == [] {
      assert first + second == first;
    } else {
      var n := |second| - 1;
      RunsCompose(w, first, second[..n]);
      Extend(w, first + second[..n], second[n]);
      assert first + second[..n] + [second[n]] == first + second;
    }
  }

  // ---------- one iteration of the sample loop ----------

  /** The world after a successful check-in, confirmation and report. */
  function Attended(w: World, selected: uint32): World
    requires w.phase.Idle? && selected != UINT_MAX
  {
    Next(Next(Next(w, CheckInOk(selected)), ConfirmImage), ReportInstall)
  }

  function AttendEvents(selected: uint32): seq<Event> {
    [CheckInOk(selected), ConfirmImage, ReportInstall]
  }

  lemma AttendRuns(w: World, events: seq<Event>, selected: uint32)
    requires CanRun(w, events) && Exec(w, events).phase.Idle? && selected != UINT_MAX
    ensures CanRun(w, events + AttendEvents(selected))
    ensures Exec(w, events + AttendEvents(selected)) == Attended(Exec(w, events), selected)
  {
    Extend(w, events, CheckInOk(selected));
    Extend(w, events + [CheckInOk(selected)], ConfirmImage);
    Extend(w, events + [CheckInOk(selected)] + [ConfirmImage], ReportInstall);
    assert events + [CheckInOk(selected)] + [ConfirmImage] + [ReportInstall] == events + AttendEvents(selected);
  }
}
