/**
 Safety of the update protocol over whole runs: the fallback image only moves forward, nothing becomes
 permanent without a successful check-in, and exactly when a failed version is not tried again.
 */
module ProtocolSafety {
  import opened Bytes
  import opened NorFlash
  import opened SettingsPage
  import opened Protocol

  // ---------- the inductive invariant ----------

  /** The version of the image a reset would fall back to. */
  function FallbackVersion(w: World): uint32 {
    VersionOf(w.boot.fallback)
  }

  ghost predicate Inv(w: World) {
    && w.ram.running == VersionOf(w.boot.Image())
    && (!w.boot.trial.NoTrial? ==> w.boot.trial.image != UINT_MAX && FallbackVersion(w) < w.boot.trial.image)
    && (w.ram.isPermanent ==> !w.boot.trial.Testing?)
    && (w.ram.executedOnce ==> !w.boot.trial.Testing?)
    && (w.ram.settings.lastConfirmed <= MAX_VERSION || w.ram.settings.lastConfirmed == w.ram.running)
    && (AboutToReboot(w) <==> w.boot.trial.Pending?)
    && (!AboutToReboot(w) ==> 0 <= w.ram.settings.retryCount)
    && (!w.phase.Idle? && !w.phase.CheckedIn? ==> !w.boot.trial.Testing?)
    && (w.phase.Reported? || w.phase.Installing? || w.phase.Downloaded? || w.phase.Finishing? || w.phase.Rebooting? ==>
          w.ram.executedOnce)
    && (!w.phase.Idle? && !w.phase.Rebooting? ==> w.phase.selected != UINT_MAX)
    && (w.phase.Installing? || w.phase.Downloaded? || w.phase.Finishing? ==>
          w.ram.running < w.phase.selected && IsHexDigit(w.ram.settings.correlationId[0]))
    && (w.phase.Installing? ==> w.phase.selected != w.ram.settings.lastApplied)
    && (w.phase.Downloaded? || (w.phase.Finishing? && w.phase.reboot) ==>
          w.ram.settings.lastApplied == w.phase.selected)
    && (w.phase.Finishing? && w.phase.reboot ==> w.boot.trial.image == w.phase.selected)
  }

  /** The new image was marked ready for test, so only a reset is left. */
  predicate AboutToReboot(w: World) {
    w.phase.Rebooting? || (w.phase.Finishing? && w.phase.reboot)
  }

  lemma FreshInv(w: World)
    requires Fresh(w)
    ensures Inv(w)
  {
  }

  lemma InvStep(w: World, e: Event)
    requires Inv(w) && Enabled(w, e)
    ensures Inv(Next(w, e))
  {
  }

  lemma {:induction false} InvRun(w: World, events: seq<Event>)
    requires Inv(w) && CanRun(w, events)
    ensures Inv(Exec(w, events))
  {
    if events != [] {
      var n := |events| - 1;
      InvRun(w, events[..n]);
      InvStep(Exec(w, events[..n]), events[n]);
    }
  }

  // ---------- the fallback image ----------

  lemma FallbackStep(w: World, e: Event)
    requires Inv(w) && Enabled(w, e)
    ensures FallbackVersion(w) <= FallbackVersion(Next(w, e))
    ensures Next(w, e).boot.fallback != w.boot.fallback ==>
              e == ConfirmImage && Next(w, e).boot.fallback == w.boot.Image()
  {
  }

  /** Over any run, with resets anywhere, the version of the fallback image never decreases. */
  lemma {:induction false} FallbackNeverDecreases(w: World, events: seq<Event>)
    requires Inv(w) && CanRun(w, events)
    ensures FallbackVersion(w) <= FallbackVersion(Exec(w, events))
  {
    if events != [] {
      var n := |events| - 1;
      FallbackNeverDecreases(w, events[..n]);
      InvRun(w, events[..n]);
      FallbackStep(Exec(w, events[..n]), events[n]);
    }
  }

  /** At step `k` of the run, `image` was running, checked in successfully and was then confirmed. */
  ghost predicate ConfirmedAt(w: World, events: seq<Event>, k: nat, image: uint32)
    requires CanRun(w, events)
  {
    && k + 1 < |events| && CanRun(w, events[..k])
    && events[k].CheckInOk? && events[k + 1] == ConfirmImage
    && Exec(w, events[..k]).boot.Image() == image
  }

  /** In any run from a booted device, a new fallback image got there by running, checking in
      successfully and being confirmed right after that. */
  lemma {:induction false} PermanentOnlyAfterCheckIn(w: World, events: seq<Event>)
    requires Inv(w) && w.phase.Idle? && CanRun(w, events)
    requires Exec(w, events).boot.fallback != w.boot.fallback
    ensures exists k: nat :: ConfirmedAt(w, events, k, Exec(w, events).boot.fallback)
  {
    var n := |events| - 1;
    var before := Exec(w, events[..n]);
    InvRun(w, events[..n]);
    FallbackStep(before, events[n]);
    if Next(before, events[n]).boot.fallback != before.boot.fallback {
      CheckInBeforeConfirm(w, events[..n]);
      assert events[..n][..n - 1] == events[..n - 1];
      assert ConfirmedAt(w, events, n - 1, Exec(w, events).boot.fallback);
    } else {
      PermanentOnlyAfterCheckIn(w, events[..n]);
      var k: nat :| ConfirmedAt(w, events[..n], k, before.boot.fallback);
      assert events[..n][..k] == events[..k];
      assert ConfirmedAt(w, events, k, before.boot.fallback);
    }
  }

  /** Only a successful check-in leads to the point where an image is confirmed. */
  lemma CheckInBeforeConfirm(w: World, events: seq<Event>)
    requires w.phase.Idle? && CanRun(w, events) && Exec(w, events).phase.CheckedIn?
    ensures events != [] && events[|events| - 1].CheckInOk?
    ensures CanRun(w, events[..|events| - 1])
    ensures Exec(w, events[..|events| - 1]).boot == Exec(w, events).boot
  {
  }

  // ---------- a failed version is not installed again ----------

  /** The run installs version `v`. */
  ghost predicate Installs(w: World, events: seq<Event>, v: uint32)
    requires CanRun(w, events)
  {
    exists k: nat :: InstallsAt(w, events, k, v)
  }

  ghost predicate InstallsAt(w: World, events: seq<Event>, k: nat, v: uint32) {
    && k < |events| && CanRun(w, events[..k])
    && events[k].StartInstall? && Exec(w, events[..k]).phase == Reported(v)
  }

  /** Somewhere in the run another version's install overwrites the record of `v`. */
  ghost predicate OverwritesRecord(w: World, events: seq<Event>, v: uint32)
    requires CanRun(w, events)
  {
    exists k: nat :: OverwritesAt(w, events, k, v)
  }

  ghost predicate OverwritesAt(w: World, events: seq<Event>, k: nat, v: uint32) {
    k < |events| && CanRun(w, events[..k]) && Overwrites(Exec(w, events[..k]), events[k], v)
  }

  /** The step replaces the record in flash by another version's, or makes an image older than `v`
      permanent whose own install was cut off by a reset before it could do that. */
  predicate Overwrites(w: World, e: Event, v: uint32) {
    || (e.SaveSettings? && w.ram.settings.lastApplied != v)
    || (e.ConfirmImage? && w.boot.trial.Testing? && w.boot.trial.image < v)
  }

  /** The next step writes the record that `v` was applied. */
  ghost predicate Records(w: World, v: uint32) {
    Inv(w) && w.phase.Finishing? && w.phase.selected == v && w.ram.settings.lastApplied == v
  }

  /** Whatever happens next, `v` is not installed until another version's install overwrites the record. */
  ghost predicate NotRetried(w: World, v: uint32) {
    forall events | CanRun(w, events) && !OverwritesRecord(w, events, v) :: !Installs(w, events, v)
  }

  /** The record of `v` is safe: either `v` (or something newer) is permanent, or flash says that `v`
      was applied and that the fallback image is confirmed. RAM says the same, except while another
      version's install is about to be saved. */
  ghost predicate Kept(w: World, v: uint32) {
    Inv(w) && (v <= FallbackVersion(w) || RecordStands(w, v))
  }

  ghost predicate RecordStands(w: World, v: uint32) {
    && v <= MAX_VERSION
    && Decode(w.page).lastApplied == v
    && Decode(w.page).lastConfirmed == FallbackVersion(w) == w.ram.settings.lastConfirmed
    && (w.ram.settings.lastApplied != v ==>
          (w.phase.Downloaded? || w.phase.Finishing?) && w.phase.selected == w.ram.settings.lastApplied)
  }

  lemma RecordIsKept(w: World, v: uint32)
    requires Records(w, v)
    requires w.ram.settings.lastConfirmed == w.ram.running && v <= MAX_VERSION
    ensures Kept(Next(w, SaveSettings), v)
  {
    DecodeAfterPage(w.ram.settings);
  }

  lemma KeptAfterWrite(w: World, e: Event, v: uint32)
    requires Kept(w, v) && Enabled(w, e) && (e.ReportInstall? || e.SaveSettings?) && !Overwrites(w, e, v)
    ensures Kept(Next(w, e), v)
  {
    InvStep(w, e);
    FallbackStep(w, e);
    DecodeAfterPage(Next(w, e).ram.settings);
  }

  lemma KeptStep(w: World, e: Event, v: uint32)
    requires Kept(w, v) && Enabled(w, e)
    requires !Overwrites(w, e, v)
    ensures Kept(Next(w, e), v)
    ensures !(e.StartInstall? && w.phase.selected == v)
  {
    if e.ReportInstall? || e.SaveSettings? {
      KeptAfterWrite(w, e, v);
    } else {
      InvStep(w, e);
      FallbackStep(w, e);
    }
  }

  lemma OverwritesInPrefix(w: World, events: seq<Event>, n: nat, v: uint32)
    requires CanRun(w, events) && n <= |events| && CanRun(w, events[..n]) && OverwritesRecord(w, events[..n], v)
    ensures OverwritesRecord(w, events, v)
  {
    var k: nat :| OverwritesAt(w, events[..n], k, v);
    assert events[..n][..k] == events[..k];
    assert OverwritesAt(w, events, k, v);
  }

  lemma InstallsInPrefixOrLast(w: World, events: seq<Event>, n: nat, v: uint32)
    requires CanRun(w, events) && |events| == n + 1 && CanRun(w, events[..n]) && Installs(w, events, v)
    ensures Installs(w, events[..n], v) || InstallsAt(w, events, n, v)
  {
    var k: nat :| InstallsAt(w, events, k, v);
    if k < n {
      assert events[..n][..k] == events[..k];
      assert InstallsAt(w, events[..n], k, v);
    }
  }

  lemma {:induction false} KeptRun(w: World, events: seq<Event>, v: uint32)
    requires Kept(w, v) && CanRun(w, events) && !OverwritesRecord(w, events, v)
    ensures Kept(Exec(w, events), v) && !Installs(w, events, v)
  {
    if events != [] {
      var n := |events| - 1;
      if OverwritesRecord(w, events[..n], v) {
        OverwritesInPrefix(w, events, n, v);
      }
      KeptRun(w, events[..n], v);
      assert !OverwritesAt(w, events, n, v);
      KeptStep(Exec(w, events[..n]), events[n], v);
      if Installs(w, events, v) {
        InstallsInPrefixOrLast(w, events, n, v);
      }
    }
  }

  // ---------- when a failed version is installed again ----------

  function AnyUuid(): seq<uint8> {
    seq(36, i requires 0 <= i < 36 => if IsDashPosition(i) then DASH else 48)
  }

  /** Two resets: the new image ran once without being confirmed. */
  lemma TrialFails(w: World, v: uint32)
    requires Records(w, v)
    ensures var saved, events := Next(w, SaveSettings), [Reset(true), Reset(true)];
            && CanRun(saved, events)
            && Exec(saved, events) == FailedTrial(w)
  {
    var saved := Next(w, SaveSettings);
    Extend(saved, [], Reset(true));
    Extend(saved, [] + [Reset(true)], Reset(true));
    assert [] + [Reset(true)] + [Reset(true)] == [Reset(true), Reset(true)];
  }

  /** A run that ends in installing `v` without any other version overwriting the record. */
  ghost predicate InstallsAfterAll(w: World, events: seq<Event>, v: uint32) {
    CanRun(w, events) && !OverwritesRecord(w, events, v) && Installs(w, events, v)
  }

  lemma InstallFollows(w: World, events: seq<Event>, v: uint32)
    requires CanRun(w, events) && Exec(w, events).phase == Reported(v) && UpdateRequired(Exec(w, events).ram, v, 0)
    requires !OverwritesRecord(w, events, v)
    ensures InstallsAfterAll(w, events + [StartInstall(0, AnyUuid())], v)
  {
    var start := StartInstall(0, AnyUuid());
    Extend(w, events, start);
    assert (events + [start])[..|events|] == events;
    assert InstallsAt(w, events + [start], |events|, v);
    if OverwritesRecord(w, events + [start], v) {
      var k: nat :| OverwritesAt(w, events + [start], k, v);
      assert (events + [start])[..k] == events[..k];
      assert OverwritesAt(w, events, k, v);
    }
  }

  /** Nothing but `v` is ever on trial in a run that marks no image. */
  predicate Quiet(events: seq<Event>) {
    forall k | 0 <= k < |events| :: !events[k].MarkReadyForTest? && !events[k].SaveSettings?
  }

  lemma {:induction false} QuietRun(w: World, events: seq<Event>, v: uint32)
    requires CanRun(w, events) && Quiet(events) && (w.boot.trial.NoTrial? || w.boot.trial.image == v)
    ensures Exec(w, events).boot.trial.NoTrial? || Exec(w, events).boot.trial.image == v
    ensures !OverwritesRecord(w, events, v)
  {
    if events != [] {
      var n := |events| - 1;
      QuietRun(w, events[..n], v);
      if OverwritesRecord(w, events, v) {
        var k: nat :| OverwritesAt(w, events, k, v);
        if k < n {
          assert events[..n][..k] == events[..k];
          assert OverwritesAt(w, events[..n], k, v);
        }
      }
    }
  }

  /** A version above 999999999 reads back as 0, so its record is lost at the next boot. */
  lemma LargeVersionRetried(w: World, v: uint32)
    requires Records(w, v) && v > MAX_VERSION
    ensures exists events :: InstallsAfterAll(Next(w, SaveSettings), events, v)
  {
    var events := [Reset(true), Reset(true)];
    TrialFails(w, v);
    LargeVersionForgotten(w, v);
    InstalledNext(Next(w, SaveSettings), events, v);
  }

  lemma LargeVersionForgotten(w: World, v: uint32)
    requires Records(w, v) && v > MAX_VERSION
    ensures var r := FailedTrial(w);
            r.phase.Idle? && v != UINT_MAX && UpdateRequired(Attended(r, v).ram, v, 0)
  {
    DecodeAfterPage(w.ram.settings);
  }

  /** The next check-in has the version installed. */
  lemma InstalledNext(w: World, events: seq<Event>, v: uint32)
    requires CanRun(w, events) && Quiet(events) && (w.boot.trial.NoTrial? || w.boot.trial.image == v)
    requires v != UINT_MAX && Exec(w, events).phase.Idle?
    requires UpdateRequired(Attended(Exec(w, events), v).ram, v, 0)
    ensures exists all :: InstallsAfterAll(w, all, v)
  {
    AttendRuns(w, events, v);
    QuietRun(w, events + AttendEvents(v), v);
    InstallFollows(w, events + AttendEvents(v), v);
  }

  /** Back on an image that was never confirmed, the first check-in reports the roll-back and clears the
      correlation id, so the next boot does not look like a roll-back any more. */
  lemma RollBackForgotten(w: World, v: uint32)
    requires w.phase.Idle? && w.boot.trial.NoTrial? && !w.ram.executedOnce && w.ram.isRolledBack
    requires w.ram.running == VersionOf(w.boot.fallback) && v != UINT_MAX
    requires w.ram.settings.lastApplied == v <= MAX_VERSION
    requires w.ram.settings.lastConfirmed <= MAX_VERSION && w.ram.settings.lastConfirmed != w.ram.running
    ensures var again := Next(Attended(w, v), Reset(true));
            && again.phase.Idle? && again.boot == w.boot && again.ram.running == w.ram.running
            && !again.ram.executedOnce && !again.ram.isRolledBack
            && again.ram.settings.lastConfirmed != again.ram.running
  {
    DecodeAfterPage(ReportedSettings(w.ram));
  }

  /** That boot takes the image for a new one, and the record of `v` is cleared. */
  lemma RecordCleared(w: World, v: uint32)
    requires w.phase.Idle? && !w.ram.executedOnce && !w.ram.isRolledBack && w.boot.trial.NoTrial?
    requires w.ram.settings.lastConfirmed != w.ram.running && w.ram.running < v && v != UINT_MAX
    ensures Attended(w, v).phase == Reported(v) && UpdateRequired(Attended(w, v).ram, v, 0)
  {
  }

  /** The fallback image after a failed trial of `v`. */
  function FailedTrial(w: World): World {
    Rebooted(Page(w.ram.settings), Boot(w.boot.fallback, NoTrial), true)
  }

  lemma FailedTrialIsRolledBack(w: World, v: uint32)
    requires Records(w, v) && v <= MAX_VERSION
    ensures var r := FailedTrial(w);
            && r.ram.isRolledBack && r.ram.running == w.ram.running && r.ram.running == VersionOf(r.boot.fallback)
            && r.ram.settings.lastApplied == v
            && (w.ram.settings.lastConfirmed <= MAX_VERSION ==>
                  r.ram.settings.lastConfirmed == w.ram.settings.lastConfirmed)
  {
    DecodeAfterPage(w.ram.settings);
  }

  /** A failed trial, a check-in and one more boot. */
  lemma TrialFailsAndReboots(w: World, v: uint32) returns (events: seq<Event>)
    requires Records(w, v)
    ensures var saved := Next(w, SaveSettings);
            CanRun(saved, events) && Exec(saved, events) == Next(Attended(FailedTrial(w), v), Reset(true))
    ensures Quiet(events)
  {
    var failed := [Reset(true), Reset(true)];
    TrialFails(w, v);
    AttendAndReboot(Next(w, SaveSettings), failed, v);
    events := failed + AttendEvents(v) + [Reset(true)];
  }

  lemma AttendAndReboot(start: World, events: seq<Event>, v: uint32)
    requires CanRun(start, events) && Exec(start, events).phase.Idle? && v != UINT_MAX
    ensures var all := events + AttendEvents(v) + [Reset(true)];
            CanRun(start, all) && Exec(start, all) == Next(Attended(Exec(start, events), v), Reset(true))
  {
    AttendRuns(start, events, v);
    Extend(start, events + AttendEvents(v), Reset(true));
  }

  lemma UnconfirmedVersionRetried(w: World, v: uint32)
    requires Records(w, v) && v <= MAX_VERSION && w.ram.settings.lastConfirmed != w.ram.running
    ensures exists events :: InstallsAfterAll(Next(w, SaveSettings), events, v)
  {
    var saved := Next(w, SaveSettings);
    var events := TrialFailsAndReboots(w, v);
    var again := Exec(saved, events);
    assert UpdateRequired(Attended(again, v).ram, v, 0) by {
      FailedTrialIsRolledBack(w, v);
      RollBackForgotten(FailedTrial(w), v);
      RecordCleared(again, v);
    }
    InstalledNext(saved, events, v);
  }

  /** Exactly when a recorded version is not tried again, over all runs with resets anywhere: when the
      running image was confirmed as it recorded the update, and the version survives being saved. */
  lemma NotRetriedIff(w: World, v: uint32)
    requires Records(w, v)
    ensures NotRetried(Next(w, SaveSettings), v)
            <==> w.ram.settings.lastConfirmed == w.ram.running && v <= MAX_VERSION
  {
    var saved := Next(w, SaveSettings);
    if w.ram.settings.lastConfirmed == w.ram.running && v <= MAX_VERSION {
      RecordIsKept(w, v);
      forall events | CanRun(saved, events) && !OverwritesRecord(saved, events, v)
        ensures !Installs(saved, events, v)
      {
        KeptRun(saved, events, v);
      }
    } else {
      if v > MAX_VERSION {
        LargeVersionRetried(w, v);
      } else {
        UnconfirmedVersionRetried(w, v);
      }
      var events :| InstallsAfterAll(saved, events, v);
      assert !NotRetried(saved, v);
    }
  }

  // ---------- runs in which every install is recorded by a confirmed image ----------

  /** The state in which a reset does harm: the new image is marked ready for test, but its version is
      not in flash yet, and what is there makes the new image look like one rolled back to. */
  ghost predicate HarmfulReset(w: World, e: Event) {
    && e.Reset? && w.phase.Finishing? && w.phase.reboot
    && RolledBack(Decode(w.page), w.phase.selected)
  }

  ghost predicate HarmlessResets(w: World, events: seq<Event>)
    requires CanRun(w, events)
  {
    forall k: nat :: !HarmAt(w, events, k)
  }

  ghost predicate HarmAt(w: World, events: seq<Event>, k: nat) {
    k < |events| && CanRun(w, events[..k]) && HarmfulReset(Exec(w, events[..k]), events[k])
  }

  /** The roll-back flag is only ever raised while a confirmed image runs. */
  ghost predicate Good(w: World) {
    var flash, f := Decode(w.page), FallbackVersion(w);
    && Inv(w)
    && (RolledBack(flash, f) ==> flash.lastConfirmed == f)
    && (w.boot.trial.Testing? || w.phase.Rebooting? ==> !RolledBack(flash, w.boot.trial.image))
    && (!w.ram.executedOnce ==> w.ram.settings == flash && w.ram.isRolledBack == RolledBack(flash, w.ram.running))
    && (w.ram.executedOnce ==>
          && w.ram.settings.lastConfirmed == w.ram.running
          && (0 < w.ram.settings.lastApplied <= MAX_VERSION && w.ram.settings.lastApplied != w.ram.running ==>
                w.ram.running <= MAX_VERSION))
  }

  /** A device that has no update on record starts in a good state. */
  lemma FreshGood(w: World)
    requires Fresh(w) && Decode(w.page).lastApplied == 0
    ensures Good(w)
  {
  }

  lemma GoodAfterReset(w: World, e: Event)
    requires Good(w) && Enabled(w, e) && e.Reset? && !HarmfulReset(w, e)
    ensures Good(Next(w, e))
  {
    InvStep(w, e);
  }

  lemma GoodAfterWrite(w: World, e: Event)
    requires Good(w) && Enabled(w, e) && (e.ReportInstall? || e.SaveSettings?)
    ensures Good(Next(w, e))
  {
    InvStep(w, e);
    DecodeAfterPage(Next(w, e).ram.settings);
  }

  lemma GoodStep(w: World, e: Event)
    requires Good(w) && Enabled(w, e) && !HarmfulReset(w, e)
    ensures Good(Next(w, e))
  {
    if e.Reset? {
      GoodAfterReset(w, e);
    } else if e.ReportInstall? || e.SaveSettings? {
      GoodAfterWrite(w, e);
    } else {
      InvStep(w, e);
    }
  }

  lemma {:induction false} GoodRun(w: World, events: seq<Event>)
    requires Good(w) && CanRun(w, events) && HarmlessResets(w, events)
    ensures Good(Exec(w, events))
  {
    if events != [] {
      var n := |events| - 1;
      var early := events[..n];
      forall k: nat | HarmAt(w, early, k) ensures HarmAt(w, events, k) {
        assert early[..k] == events[..k];
      }
      GoodRun(w, early);
      assert !HarmAt(w, events, n);
      GoodStep(Exec(w, early), events[n]);
    }
  }

  /** From a device without an update on record, over any run whose resets are harmless, every version
      up to 999999999 that an install records is not tried again. */
  lemma RecordedVersionsNotRetried(w: World, events: seq<Event>, v: uint32)
    requires Fresh(w) && Decode(w.page).lastApplied == 0
    requires CanRun(w, events) && HarmlessResets(w, events)
    requires Exec(w, events).phase.Finishing? && Exec(w, events).phase.selected == v <= MAX_VERSION
    requires Exec(w, events).ram.settings.lastApplied == v
    ensures Enabled(Exec(w, events), SaveSettings) && NotRetried(Next(Exec(w, events), SaveSettings), v)
  {
    FreshGood(w);
    GoodRun(w, events);
    NotRetriedIff(Exec(w, events), v);
  }

  // ---------- a run that tries a failed version again ----------

  function StartedInstall(w: World, v: uint32): World
    requires w.phase.Idle? && v != UINT_MAX && UpdateRequired(Attended(w, v).ram, v, 0)
  {
    Next(Attended(w, v), StartInstall(0, AnyUuid()))
  }

  function MarkedInstall(w: World, v: uint32): World
    requires w.phase.Idle? && v != UINT_MAX && UpdateRequired(Attended(w, v).ram, v, 0)
  {
    Next(Next(StartedInstall(w, v), DownloadDone), MarkReadyForTest(true, 0))
  }

  lemma InstallStarts(w: World, events: seq<Event>, v: uint32) returns (all: seq<Event>)
    requires CanRun(w, events) && Exec(w, events).phase.Idle? && v != UINT_MAX
    requires UpdateRequired(Attended(Exec(w, events), v).ram, v, 0)
    ensures CanRun(w, all) && Exec(w, all) == StartedInstall(Exec(w, events), v)
  {
    AttendRuns(w, events, v);
    all := events + AttendEvents(v);
    Extend(w, all, StartInstall(0, AnyUuid()));
    all := all + [StartInstall(0, AnyUuid())];
  }

  lemma InstallMarks(w: World, events: seq<Event>, v: uint32) returns (all: seq<Event>)
    requires CanRun(w, events) && Exec(w, events).phase.Idle? && v != UINT_MAX
    requires UpdateRequired(Attended(Exec(w, events), v).ram, v, 0)
    ensures CanRun(w, all) && Exec(w, all) == MarkedInstall(Exec(w, events), v)
  {
    all := InstallStarts(w, events, v);
    Extend(w, all, DownloadDone);
    all := all + [DownloadDone];
    Extend(w, all, MarkReadyForTest(true, 0));
    all := all + [MarkReadyForTest(true, 0)];
  }

  /** A device running version 1, as provisioning leaves it: nothing is on record. */
  function Factory(): World {
    Rebooted(Fill(PAGE, ERASED), Boot(1, NoTrial), true)
  }

  /** On `w` an older image runs that looks like one rolled back to. */
  ghost predicate LooksRolledBack(w: World, boot: Boot, applied: uint32, confirmed: uint32) {
    && w.phase.Idle? && w.boot == boot && w.ram.running == boot.Image() && !w.ram.executedOnce
    && w.ram.isRolledBack && w.ram.settings.lastApplied == applied && w.ram.settings.lastConfirmed == confirmed
    && w.ram.settings.retryCount >= 0
  }

  lemma MarkedInstallRecords(w: World, v: uint32)
    requires Inv(w) && w.phase.Idle? && v != UINT_MAX && UpdateRequired(Attended(w, v).ram, v, 0)
    ensures Records(MarkedInstall(w, v), v)
  {
    InvStep(w, CheckInOk(v));
    InvStep(Next(w, CheckInOk(v)), ConfirmImage);
    InvStep(Next(Next(w, CheckInOk(v)), ConfirmImage), ReportInstall);
    InvStep(Attended(w, v), StartInstall(0, AnyUuid()));
    InvStep(StartedInstall(w, v), DownloadDone);
    InvStep(Next(StartedInstall(w, v), DownloadDone), MarkReadyForTest(true, 0));
  }

  lemma FactoryState()
    ensures Fresh(Factory()) && Decode(Factory().page).lastApplied == 0
    ensures Attended(Factory(), 2).boot == Boot(1, NoTrial) && UpdateRequired(Attended(Factory(), 2).ram, 2, 0)
    ensures Attended(Factory(), 2).ram.settings.lastConfirmed == Attended(Factory(), 2).ram.running == 1
  {
    ErasedPageDecodesToDefaults();
  }

  lemma SecondVersionMarked()
    ensures UpdateRequired(Attended(Factory(), 2).ram, 2, 0)
    ensures Records(MarkedInstall(Factory(), 2), 2)
    ensures LooksRolledBack(FailedTrial(MarkedInstall(Factory(), 2)), Boot(1, NoTrial), 2, 1)
  {
    FactoryState();
    FreshInv(Factory());
    MarkedInstallRecords(Factory(), 2);
    FailedTrialIsRolledBack(MarkedInstall(Factory(), 2), 2);
  }

  /** Version 2 is installed on the factory device and fails its trial. */
  lemma SecondVersionFails() returns (events: seq<Event>)
    ensures CanRun(Factory(), events) && LooksRolledBack(Exec(Factory(), events), Boot(1, NoTrial), 2, 1)
  {
    SecondVersionMarked();
    events := InstallMarks(Factory(), [], 2);
    var marked := Exec(Factory(), events);
    TrialFails(marked, 2);
    Extend(Factory(), events, SaveSettings);
    events := events + [SaveSettings];
    RunsCompose(Factory(), events, [Reset(true), Reset(true)]);
    events := events + [Reset(true), Reset(true)];
  }

  function FailedDownload(w: World, v: uint32): World
    requires w.phase.Idle? && v != UINT_MAX && UpdateRequired(Attended(w, v).ram, v, 0)
  {
    Next(Next(StartedInstall(w, v), DownloadFailed), SaveSettings)
  }

  lemma DownloadFails(w: World, events: seq<Event>, v: uint32) returns (all: seq<Event>)
    requires CanRun(w, events) && Exec(w, events).phase.Idle? && v != UINT_MAX
    requires UpdateRequired(Attended(Exec(w, events), v).ram, v, 0)
    ensures CanRun(w, all) && Exec(w, all) == FailedDownload(Exec(w, events), v)
  {
    all := InstallStarts(w, events, v);
    Extend(w, all, DownloadFailed);
    all := all + [DownloadFailed];
    Extend(w, all, SaveSettings);
    all := all + [SaveSettings];
  }

  /** A failed download leaves a correlation id in flash next to the older record. */
  lemma ThirdVersionNotDownloaded(w: World)
    requires LooksRolledBack(w, Boot(1, NoTrial), 2, 1)
    ensures UpdateRequired(Attended(w, 3).ram, 3, 0)
    ensures var f := FailedDownload(w, 3);
            && f.phase.Idle? && f.boot == Boot(1, NoTrial) && f.ram.running == 1 && f.ram.executedOnce
            && f.ram.settings.lastApplied == 2 && Decode(f.page).retryCount >= 0
            && RolledBack(Decode(f.page), 3) && Decode(f.page).lastApplied == 2 && Decode(f.page).lastConfirmed == 1
  {
    ThirdVersionStarted(w);
    DecodeAfterPage(StartedInstall(w, 3).ram.settings);
  }

  lemma ThirdVersionStarted(w: World)
    requires LooksRolledBack(w, Boot(1, NoTrial), 2, 1)
    ensures UpdateRequired(Attended(w, 3).ram, 3, 0)
    ensures var s := StartedInstall(w, 3);
            && s.phase == Installing(3) && s.boot == Boot(1, NoTrial) && s.ram.running == 1 && s.ram.executedOnce
            && s.ram.settings.lastApplied == 2 && s.ram.settings.lastConfirmed == 1
            && s.ram.settings.correlationId[0] == 48
  {
  }

  /** The second try marks version 3, with that older record still in flash. */
  lemma ThirdVersionMarked(f: World)
    requires f.phase.Idle? && f.boot == Boot(1, NoTrial) && f.ram.running == 1 && f.ram.executedOnce
    requires f.ram.settings.lastApplied == 2 && Decode(f.page).retryCount >= 0
    requires RolledBack(Decode(f.page), 3) && Decode(f.page).lastApplied == 2 && Decode(f.page).lastConfirmed == 1
    ensures UpdateRequired(Attended(f, 3).ram, 3, 0)
    ensures LooksRolledBack(Next(MarkedInstall(f, 3), Reset(true)), Boot(1, Testing(3)), 2, 1)
  {
  }

  /** Version 3 then fails to download once, is downloaded, and the power fails just after it was marked
      ready for test: it boots looking like an image rolled back to. */
  lemma ThirdVersionBootsUnrecorded() returns (events: seq<Event>)
    ensures CanRun(Factory(), events) && LooksRolledBack(Exec(Factory(), events), Boot(1, Testing(3)), 2, 1)
  {
    events := SecondVersionFails();
    ThirdVersionNotDownloaded(Exec(Factory(), events));
    events := DownloadFails(Factory(), events, 3);
    ThirdVersionMarked(Exec(Factory(), events));
    events := InstallMarks(Factory(), events, 3);
    Extend(Factory(), events, Reset(true));
    events := events + [Reset(true)];
  }

  /** So a recorded version can be tried again: version 3 becomes permanent unconfirmed, installs and
      records version 4, and that record does not last. */
  lemma SomeRecordedVersionIsRetried() returns (events: seq<Event>)
    ensures Fresh(Factory()) && Decode(Factory().page).lastApplied == 0
    ensures CanRun(Factory(), events)
    ensures Records(Exec(Factory(), events), 4)
    ensures !NotRetried(Next(Exec(Factory(), events), SaveSettings), 4)
  {
    events := ThirdVersionBootsUnrecorded();
    FactoryState();
    FreshInv(Factory());
    InvRun(Factory(), events);
    var third := Exec(Factory(), events);
    MarkedInstallRecords(third, 4);
    events := InstallMarks(Factory(), events, 4);
    NotRetriedIff(Exec(Factory(), events), 4);
  }
}
