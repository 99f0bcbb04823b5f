/**
 What the theorems about runs of the protocol say of the client: at every moment its state is one that a
 run from a fresh boot leads to, resets included.
 */
module ClientSafety {
  import opened Bytes
  import opened NorFlash
  import opened SettingsPage
  import opened Download
  import opened Protocol
  import opened ProtocolSafety
  import opened Client

  /** The inductive invariant holds, and the image a reset falls back to is never older than at the start. */
  lemma ClientKeepsInvariant(c: Client)
    requires c.Valid()
    ensures Inv(c.View())
    ensures FallbackVersion(c.start) <= FallbackVersion(c.View())
  {
    ReachesRun(c.start, c.events, c.View());
    FreshInv(c.start);
    InvRun(c.start, c.events);
    FallbackNeverDecreases(c.start, c.events);
  }

  /** An image that became permanent since the start ran, checked in and was confirmed right after that. */
  lemma ClientConfirmsAfterCheckIn(c: Client)
    requires c.Valid() && c.boot.fallback != c.start.boot.fallback
    ensures CanRun(c.start, c.events) && exists k: nat :: ConfirmedAt(c.start, c.events, k, c.boot.fallback)
  {
    ReachesRun(c.start, c.events, c.View());
    FreshInv(c.start);
    PermanentOnlyAfterCheckIn(c.start, c.events);
  }

  /** About to save the settings of an install, the client will not try that version again, whatever
      happens, exactly if its running image was confirmed and the version survives being saved. */
  lemma ClientNotRetriedIff(c: Client)
    requires c.Valid() && c.phase.Finishing? && c.settings.lastApplied == c.phase.selected
    ensures NotRetried(Next(c.View(), SaveSettings), c.phase.selected)
            <==> c.settings.lastConfirmed == c.runningVersion && c.phase.selected <= MAX_VERSION
  {
    ClientKeepsInvariant(c);
    NotRetriedIff(c.View(), c.phase.selected);
  }

  /** While an update is downloaded the image that runs is the one a reset falls back to, and what the
      client may write leaves its slot alone: no run downloads over its own fallback. */
  lemma DownloadSparesFallback(c: Client, before: seq<uint8>, after: seq<uint8>)
    requires c.Valid() && (c.phase.Installing? || c.phase.Downloaded?)
    requires c.imagePosition == 1 || c.imagePosition == 2
    requires |before| == c.flash.cells.Length && WithinBounds(before, after, c.TargetSlot())
    ensures c.boot.AfterReset() == c.boot && c.boot.Image() == c.boot.fallback
    ensures var run := RunningSlotAddress(c.imagePosition, c.slots);
            after[run..run + MAX_FIRMWARE_SIZE] == before[run..run + MAX_FIRMWARE_SIZE]
  {
    ClientKeepsInvariant(c);
    WithinBoundsPreserves(before, after, c.imagePosition, c.slots);
  }
}
