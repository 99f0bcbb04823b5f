/**
 What the single decisions of the protocol amount to, in terms of versions, identifiers and the page that
 the next boot will find.
 */
module ProtocolDecisions {
  import opened Bytes
  import opened SettingsPage
  import opened Protocol
  import opened ProtocolSafety

  // ---------- which version is installed ----------

  /** Every version above the running one is installed, save the one that is on record as applied. */
  lemma UpdateRequiredIff(w: World, now: int)
    requires Inv(w) && w.phase.Reported?
    ensures UpdateRequired(w.ram, w.phase.selected, now)
            <==> w.ram.running < w.phase.selected && w.phase.selected != w.ram.settings.lastApplied
  {
  }

  /** A device whose build number is unknown counts as running version 0, so it takes any other. */
  lemma UnknownVersionIsZero(w: World, v: uint32, now: int)
    requires Fresh(w) && w.boot.fallback == UINT_MAX && v != UINT_MAX
    ensures w.ram.running == 0
    ensures UpdateRequired(Attended(w, v).ram, v, now)
            <==> v != 0 && v != Attended(w, v).ram.settings.lastApplied
  {
    FreshInv(w);
    AttendedInv(w, v);
    UpdateRequiredIff(Attended(w, v), now);
  }

  lemma AttendedInv(w: World, v: uint32)
    requires Inv(w) && w.phase.Idle? && v != UINT_MAX
    ensures Inv(Attended(w, v)) && Attended(w, v).phase == Reported(v)
  {
    InvStep(w, CheckInOk(v));
    InvStep(Next(w, CheckInOk(v)), ConfirmImage);
    InvStep(Next(Next(w, CheckInOk(v)), ConfirmImage), ReportInstall);
  }

  /** A boot takes its settings from the page and its version from the image. It knows the image as
      permanent exactly if it is not on trial and the image state could be read, and takes it for one
      rolled back to exactly if another version is on record as applied together with an identifier. */
  lemma WhatABootKnows(page: PageBytes, boot: Boot, stateRead: bool)
    ensures var ram, s := BootedRam(page, boot, stateRead), Decode(page);
            && ram.settings == s && ram.running == (if boot.Image() == UINT_MAX then 0 else boot.Image())
            && !ram.executedOnce && (ram.isPermanent <==> stateRead && boot.trial.NoTrial?)
            && (ram.isRolledBack <==>
                  s.lastApplied != 0 && s.lastApplied != ram.running && CString(s.correlationId) != [])
  {
  }

  /** A check-in makes the running image permanent, and the client knows. */
  lemma CheckInMakesPermanent(w: World, v: uint32)
    requires Inv(w) && w.phase.Idle? && v != UINT_MAX
    ensures var done := Attended(w, v);
            done.ram.isPermanent && done.boot == Boot(w.boot.Image(), NoTrial) && done.ram.running == w.ram.running
  {
  }

  // ---------- what the first check-in after a boot reports ----------

  /** The settings in flash and RAM both say this, as far as flash can (versions up to 999999999). */
  ghost predicate OnRecord(w: World, applied: uint32, confirmed: uint32) {
    && w.ram.settings.lastApplied == applied && w.ram.settings.lastConfirmed == confirmed
    && Decode(w.page).lastApplied == (if applied <= MAX_VERSION then applied else 0)
    && Decode(w.page).lastConfirmed == (if confirmed <= MAX_VERSION then confirmed else 0)
  }

  /** A roll-back is reported, whatever image was confirmed: the failed version stays on record, the
      identifier is cleared in flash, and no later boot looks rolled back on account of it. */
  lemma RollBackIsReported(w: World, v: uint32, stateRead: bool)
    requires w.phase.Idle? && !w.ram.executedOnce && w.ram.isRolledBack && v != UINT_MAX
    ensures var done := Attended(w, v);
            && OnRecord(done, w.ram.settings.lastApplied, w.ram.settings.lastConfirmed)
            && done.ram.settings == w.ram.settings.(correlationId := done.ram.settings.correlationId)
            && CString(done.ram.settings.correlationId) == [] && CString(Decode(done.page).correlationId) == []
            && !Next(done, Reset(stateRead)).ram.isRolledBack
  {
    DecodeAfterPage(ReportedSettings(w.ram));
    VersionsSurvive(ReportedSettings(w.ram));
  }

  /** An image that is not yet confirmed is reported as installed: it is confirmed, nothing stays on record
      as applied, and the tries are forgotten. */
  lemma NewImageIsReported(w: World, v: uint32)
    requires w.phase.Idle? && !w.ram.executedOnce && !w.ram.isRolledBack && v != UINT_MAX
    requires w.ram.settings.lastConfirmed != w.ram.running
    ensures var done := Attended(w, v);
            && OnRecord(done, 0, w.ram.running)
            && CString(done.ram.settings.correlationId) == [] && CString(Decode(done.page).correlationId) == []
            && done.ram.settings.retryCount == Decode(done.page).retryCount == 0
            && done.ram.settings.nextRetryTime == Decode(done.page).nextRetryTime == 0
  {
    DecodeAfterPage(ReportedSettings(w.ram));
    VersionsSurvive(ReportedSettings(w.ram));
  }

  /** Otherwise, and in every later check-in of the same boot, nothing is reported or written. */
  lemma NothingElseIsReported(w: World, v: uint32)
    requires w.phase.Idle? && v != UINT_MAX
    requires w.ram.executedOnce || (!w.ram.isRolledBack && w.ram.settings.lastConfirmed == w.ram.running)
    ensures Attended(w, v).page == w.page && Attended(w, v).ram.settings == w.ram.settings
    ensures Attended(w, v).ram.executedOnce
  {
  }

  // ---------- an update that works ----------

  /** After the install of `v` and a reset `v` runs, on trial and not taken for a roll-back; its first
      check-in makes it permanent and confirmed, and nothing stays on record. */
  lemma UpdateSucceeds(w: World, v: uint32, stateRead: bool, selected: uint32)
    requires Records(w, v) && w.phase.reboot && w.ram.settings.lastConfirmed != v && selected != UINT_MAX
    ensures var trial := Next(Next(w, SaveSettings), Reset(stateRead));
            && trial.phase.Idle? && trial.boot == Boot(w.boot.fallback, Testing(v)) && trial.ram.running == v
            && !trial.ram.isRolledBack && !trial.ram.isPermanent
            && Attended(trial, selected).boot == Boot(v, NoTrial)
            && OnRecord(Attended(trial, selected), 0, v)
  {
    DecodeAfterPage(w.ram.settings);
    NewImageIsReported(Next(Next(w, SaveSettings), Reset(stateRead)), selected);
  }

  // ---------- the identifier and the tries of an install ----------

  /** The identifier of an install is the one generated, in RAM and after every reset; of the rest of its
      buffer nothing changes, so the bytes that the reader takes for the retry count do not either. */
  lemma NewIdentifier(s: Settings, uuid: seq<uint8>)
    requires IsUuid(uuid)
    ensures var t := s.(correlationId := WithNewId(s.correlationId, uuid));
            && CString(t.correlationId) == uuid && CString(Decode(Page(t)).correlationId) == uuid
            && t.correlationId[37..] == s.correlationId[37..]
  {
    var id := WithNewId(s.correlationId, uuid);
    var t := s.(correlationId := id);
    forall i | 0 <= i < 36 ensures uuid[i] != 0 {
      assert IsDashPosition(i) || IsHexDigit(uuid[i]);
    }
    assert id[..36] == uuid && id[36] == 0;
    CStringUnique(id, uuid);
    CorrelationIdSurvives(t);
  }

  /** A try is counted exactly if the image was marked; the count after the next reset is then that of
      `RetryCountAfterReload`. */
  lemma TryIsCounted(w: World, ok: bool, retryTime: uint32)
    requires w.phase.Downloaded? && 0 <= w.ram.settings.retryCount < 0x7FFF_FFFF
    ensures var s := Next(w, MarkReadyForTest(ok, retryTime)).ram.settings;
            && s.retryCount == w.ram.settings.retryCount + (if ok then 1 else 0)
            && s.nextRetryTime == (if ok then retryTime else w.ram.settings.nextRetryTime)
            && s == w.ram.settings.(retryCount := s.retryCount, nextRetryTime := s.nextRetryTime)
  {
  }
}
