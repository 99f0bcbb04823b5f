/**
 Selection of the update target from the TUF targets manifest (`src/aknano_targets_manifest.c`).

 JSON parsing is not part of this model: a target is a record of the fields looked up, each of which may
 be missing, and a manifest is the sequence of its targets.
 */
module TargetsManifest {
  import opened Bytes
  import opened HexCodec

  const JSON_ARRAY_LIMIT_COUNT := 10
  const SHA256_LENGTH := 32
  const EINVAL := 22

  datatype Option<+T> = None | Some(value: T)

  /** A target of the manifest. */
  datatype Target = Target(
    isValid: bool,
    version: Option<uint32>,
    hardwareIds: Option<seq<seq<uint8>>>,
    tags: Option<seq<seq<uint8>>>,
    sha256: Option<seq<uint8>>,
    length: Option<uint32>)

  /** `struct aknano_target`. */
  datatype Selected = Selected(version: uint32, expectedSize: uint32, expectedHash: seq<uint8>)

  /** The hardware id and tag of the device, as C strings. */
  datatype Device = Device(hwid: seq<uint8>, tag: seq<uint8>)

  function NoTarget(): Selected {
    Selected(0, 0, Fill(SHA256_LENGTH, 0))
  }

  // ---------- matching ----------

  /** `strncmp(value, wanted, |value|) == 0`, for a NUL-terminated `wanted`. */
  predicate StrNCmpEqual(value: seq<uint8>, wanted: seq<uint8>) {
    if value == [] then true
    else if wanted == [] then value[0] == 0
    else value[0] == wanted[0] && (value[0] == 0 || StrNCmpEqual(value[1..], wanted[1..]))
  }

  /** That is: the value is a prefix of what the device has, or has the device's text before a NUL. */
  lemma {:induction false} MatchIsPrefix(value: seq<uint8>, wanted: seq<uint8>)
    requires 0 !in wanted
    ensures StrNCmpEqual(value, wanted) <==> value <= wanted || (0 in value && CString(value) == wanted)
  {
    if value != [] && wanted != [] {
      var v, w := value[1..], wanted[1..];
      assert forall c | c in w :: c in wanted;
      MatchIsPrefix(v, w);
      assert value == [value[0]] + v && wanted == [wanted[0]] + w;
      if value[0] == wanted[0] {
        assert value[0] != 0 by {
          assert wanted[0] in wanted;
        }
      }
    }
  }

  /** One of the first ten values matches. */
  ghost predicate Matches(values: seq<seq<uint8>>, wanted: seq<uint8>) {
    exists i :: 0 <= i < |values| && i < JSON_ARRAY_LIMIT_COUNT && StrNCmpEqual(values[i], wanted)
  }

  /** Spelled out for text without NULs: one of the first ten values is a prefix of what the device has. */
  lemma MatchesIff(values: seq<seq<uint8>>, wanted: seq<uint8>)
    requires 0 !in wanted && forall v | v in values :: 0 !in v
    ensures Matches(values, wanted) <==> exists i :: 0 <= i < |values| && i < 10 && values[i] <= wanted
  {
    forall i | 0 <= i < |values| ensures StrNCmpEqual(values[i], wanted) <==> values[i] <= wanted {
      assert values[i] in values;
      MatchIsPrefix(values[i], wanted);
    }
  }

  method FindMatch(values: seq<seq<uint8>>, wanted: seq<uint8>) returns (foundMatch: bool)
    ensures foundMatch <==> Matches(values, wanted)
  {
    foundMatch := false;
    var i := 0;
    while i < JSON_ARRAY_LIMIT_COUNT
      invariant 0 <= i <= JSON_ARRAY_LIMIT_COUNT
      invariant i <= |values|
      invariant foundMatch <==> exists k :: 0 <= k < i && StrNCmpEqual(values[k], wanted)
    {
      if i >= |values| {
        break;
      }
      if StrNCmpEqual(values[i], wanted) {
        foundMatch := true;
      }
      i := i + 1;
    }
  }

  // ---------- one target ----------

  /** What a target turns out to be once its version is above the best so far. */
  datatype Verdict = Malformed | Ignored | Eligible(selected: Selected)

  ghost function Judge(t: Target, device: Device): Verdict {
    if !t.isValid || t.version.None? || t.hardwareIds.None? then Malformed
    else if !Matches(t.hardwareIds.value, device.hwid) then Ignored
    else if t.tags.None? then Malformed
    else if !Matches(t.tags.value, device.tag) then Ignored
    else if t.sha256.None? || |t.sha256.value| != 2 * SHA256_LENGTH || !AllHex(t.sha256.value) then Malformed
    else if t.length.None? then Ignored
    else Eligible(Selected(t.version.value, t.length.value, Binary(t.sha256.value)))
  }

  /** The manifest means this target for the device: it is complete, and one of its first ten hardware ids
      and one of its first ten tags match. The selection has its version, its length and the bytes of its
      hash. */
  ghost predicate MeantFor(t: Target, device: Device, s: Selected) {
    && t.isValid && t.version == Some(s.version) && t.length == Some(s.expectedSize)
    && t.hardwareIds.Some?
    && (exists i :: 0 <= i < |t.hardwareIds.value| && i < 10 && StrNCmpEqual(t.hardwareIds.value[i], device.hwid))
    && t.tags.Some?
    && (exists i :: 0 <= i < |t.tags.value| && i < 10 && StrNCmpEqual(t.tags.value[i], device.tag))
    && t.sha256.Some? && |s.expectedHash| == 32
    && AllHex(t.sha256.value) && HexText(s.expectedHash) == Upper(t.sha256.value)
  }

  /** Those are the eligible targets, and this is what is taken from them. */
  lemma EligibleIff(t: Target, device: Device, s: Selected)
    ensures Judge(t, device) == Eligible(s) <==> MeantFor(t, device, s)
  {
    if t.sha256.Some? && AllHex(t.sha256.value) {
      var hash := t.sha256.value;
      if |hash| == 64 {
        HexTextOfBinary(hash);
      }
      if HexText(s.expectedHash) == Upper(hash) {
        assert |hash| == 2 * |s.expectedHash|;
        HexTextOfBinary(hash);
        BinaryOfHexText(s.expectedHash);
        BinaryOfHexText(Binary(hash));
      }
    }
  }

  /** What makes the scan end: a target that is no JSON or has no version; and, of the targets above the
      best version so far, one without hardware ids, one for this hardware without tags, or one for this
      device without a hash of 64 hexadecimal digits. */
  lemma StopsIff(t: Target, device: Device, best: uint32)
    ensures Stops(t, device, best) <==>
              || !t.isValid || t.version.None?
              || (t.version.value > best && !(t.hardwareIds.Some? &&
                    (Matches(t.hardwareIds.value, device.hwid) ==>
                       t.tags.Some? && (Matches(t.tags.value, device.tag) ==>
                         t.sha256.Some? && |t.sha256.value| == 64 && AllHex(t.sha256.value)))))
  {
  }

  /** The target stops the scan when the best version so far is `best`: only what is above that is looked
      at beyond its version. */
  ghost predicate Stops(t: Target, device: Device, best: uint32) {
    !t.isValid || t.version.None? || (t.version.value > best && Judge(t, device).Malformed?)
  }

  // ---------- the manifest ----------

  /** The highest version among the eligible targets, 0 if there is none. */
  ghost function HighestVersion(targets: seq<Target>, device: Device): uint32 {
    if targets == [] then 0
    else
      var n := |targets| - 1;
      var before := HighestVersion(targets[..n], device);
      if Judge(targets[n], device).Eligible? && targets[n].version.value > before
      then targets[n].version.value else before
  }

  /** It is an upper bound, and it is reached. */
  lemma {:induction false} HighestVersionIsHighest(targets: seq<Target>, device: Device)
    ensures forall t | t in targets && Judge(t, device).Eligible? :: t.version.value <= HighestVersion(targets, device)
    ensures HighestVersion(targets, device) != 0 ==>
              exists t :: t in targets && Judge(t, device).Eligible?
                && t.version.value == HighestVersion(targets, device)
  {
    if targets != [] {
      var n := |targets| - 1;
      HighestVersionIsHighest(targets[..n], device);
      assert targets == targets[..n] + [targets[n]];
    }
  }

  /** The first eligible target of the highest version, or no target if that version is 0. */
  ghost predicate IsFirstHighest(s: Selected, targets: seq<Target>, device: Device) {
    var best := HighestVersion(targets, device);
    if best == 0 then s == NoTarget()
    else
      exists i: nat :: IsFirstAt(s, targets, device, best, i)
  }

  ghost predicate IsFirstAt(s: Selected, targets: seq<Target>, device: Device, best: uint32, i: nat) {
    && i < |targets| && Judge(targets[i], device) == Eligible(s) && s.version == best
    && forall k | 0 <= k < i :: IsBelow(targets[k], device, best)
  }

  ghost predicate IsBelow(t: Target, device: Device, best: uint32) {
    Judge(t, device).Eligible? ==> t.version.value < best
  }

  /** The first `n` targets are those scanned: none of them stops the scan, and the next one, if any, does. */
  ghost predicate Scanned(targets: seq<Target>, device: Device, n: nat) {
    && n <= |targets|
    && (forall i | 0 <= i < n :: !StopsAt(targets, device, i))
    && (n < |targets| ==> StopsAt(targets, device, n))
  }

  ghost predicate StopsAt(targets: seq<Target>, device: Device, i: nat)
    requires i < |targets|
  {
    Stops(targets[i], device, HighestVersion(targets[..i], device))
  }

  /** The context of one check-in. */
  class Context {
    const device: Device
    var selectedTarget: Selected

    /** `aknano_init_context`. */
    constructor (device: Device)
      ensures this.device == device && selectedTarget == NoTarget()
    {
      this.device := device;
      selectedTarget := NoTarget();
    }

    /** `tuf_parse_single_target`. */
    method ParseSingleTarget(t: Target) returns (ret: int)
      modifies this
      ensures ret == 0 || ret == -1
      ensures ret == -1 <==> Stops(t, device, old(selectedTarget.version))
      ensures selectedTarget ==
              if ret == 0 && t.version.value > old(selectedTarget.version) && Judge(t, device).Eligible?
              then Judge(t, device).selected else old(selectedTarget)
    {
      if !t.isValid {
        return -1;
      }
      if t.version.None? {
        return -1;
      }
      if t.version.value <= selectedTarget.version {
        return 0;
      }
      if t.hardwareIds.None? {
        return -1;
      }
      var foundMatch := FindMatch(t.hardwareIds.value, device.hwid);
      if !foundMatch {
        return 0;
      }
      if t.tags.None? {
        return -1;
      }
      foundMatch := FindMatch(t.tags.value, device.tag);
      if !foundMatch {
        return 0;
      }
      if t.sha256.None? || |t.sha256.value| != SHA256_LENGTH * 2 {
        return -1;
      }
      var expectedHash := new uint8[SHA256_LENGTH];
      ret := HexToBin(t.sha256.value, expectedHash, SHA256_LENGTH);
      assert t.sha256.value[..2 * SHA256_LENGTH] == t.sha256.value;
      if ret != 0 {
        return -1;
      }
      if t.length.None? {
        return 0;
      }
      assert expectedHash[..SHA256_LENGTH] == expectedHash[..];
      selectedTarget := Selected(t.version.value, t.length.value, expectedHash[..]);
      return 0;
    }

    /** The loop over the targets, up to the first that is an error. */
    method ParseTargets(targets: seq<Target>) returns (ghost scanned: nat)
      requires selectedTarget == NoTarget()
      modifies this
      ensures Scanned(targets, device, scanned) && IsFirstHighest(selectedTarget, targets[..scanned], device)
    {
      var next := 0;
      while next < |targets|
        invariant 0 <= next <= |targets|
        invariant forall i | 0 <= i < next :: !StopsAt(targets, device, i)
        invariant selectedTarget.version == HighestVersion(targets[..next], device)
        invariant IsFirstHighest(selectedTarget, targets[..next], device)
      {
        ghost var before := selectedTarget;
        var ret := ParseSingleTarget(targets[next]);
        assert ret == -1 <==> StopsAt(targets, device, next);
        if ret < 0 {
          break;
        }
        BestSoFar(targets, device, next, before, selectedTarget);
        next := next + 1;
      }
      return next;
    }
  }

  /** The document: not JSON, without a list of targets, or with one. */
  datatype Manifest = InvalidJson | NoTargetList | TargetList(targets: seq<Target>)

  datatype ParseStatus = Parsed | InvalidArgument(code: int) | InvalidMetadata | FieldMissing

  /** `parse_targets_metadata`. The hardware id may be missing, which is an error, as is an empty tag.
      Otherwise, from a fresh context, the target selected is the first one of the highest version among
      the eligible targets scanned before the first error. */
  method ParseTargetsMetadata(manifest: Manifest, hwid: Option<seq<uint8>>, tag: seq<uint8>)
    returns (status: ParseStatus, selected: Selected, ghost scanned: nat)
    ensures hwid.None? || CString(tag) == [] ==> status == InvalidArgument(-EINVAL)
    ensures hwid.Some? && CString(tag) != [] ==>
              && (status == InvalidMetadata <==> manifest.InvalidJson?)
              && (status == FieldMissing <==> manifest.NoTargetList?)
              && (status == Parsed <==> manifest.TargetList?)
    ensures status != Parsed ==> selected == NoTarget()
    ensures status == Parsed ==>
              var device := Device(hwid.value, tag);
              && Scanned(manifest.targets, device, scanned)
              && IsFirstHighest(selected, manifest.targets[..scanned], device)
              && (selected == NoTarget() || exists t :: t in manifest.targets && MeantFor(t, device, selected))
  {
    selected, scanned := NoTarget(), 0;
    if hwid.None? {
      return InvalidArgument(-EINVAL), selected, 0;
    }
    if tag == [] || tag[0] == 0 {
      return InvalidArgument(-EINVAL), selected, 0;
    }
    if manifest.InvalidJson? {
      return InvalidMetadata, selected, 0;
    }
    if manifest.NoTargetList? {
      return FieldMissing, selected, 0;
    }
    var context := new Context(Device(hwid.value, tag));
    scanned := context.ParseTargets(manifest.targets);
    selected := context.selectedTarget;
    if selected != NoTarget() {
      SelectionIsMeant(manifest.targets, context.device, scanned, selected);
    }
    return Parsed, selected, scanned;
  }

  lemma BestSoFar(targets: seq<Target>, device: Device, n: nat, before: Selected, after: Selected)
    requires n < |targets| && targets[n].version.Some?
    requires before.version == HighestVersion(targets[..n], device) && IsFirstHighest(before, targets[..n], device)
    requires after ==
             if targets[n].version.value > before.version && Judge(targets[n], device).Eligible?
             then Judge(targets[n], device).selected else before
    ensures after.version == HighestVersion(targets[..n + 1], device)
    ensures IsFirstHighest(after, targets[..n + 1], device)
  {
    HighestStep(targets, device, n);
    if targets[n].version.value > before.version && Judge(targets[n], device).Eligible? {
      NewBest(targets[..n], targets[n], device, after);
      assert targets[..n + 1] == targets[..n] + [targets[n]];
    } else {
      OldBest(targets[..n], targets[..n + 1], device, before);
    }
  }

  lemma HighestStep(targets: seq<Target>, device: Device, n: nat)
    requires n < |targets| && targets[n].version.Some?
    ensures var before := HighestVersion(targets[..n], device);
            HighestVersion(targets[..n + 1], device)
            == if targets[n].version.value > before && Judge(targets[n], device).Eligible?
               then targets[n].version.value else before
  {
    assert targets[..n + 1][..n] == targets[..n];
  }

  lemma NewBest(early: seq<Target>, t: Target, device: Device, s: Selected)
    requires Judge(t, device) == Eligible(s) && t.version.value > HighestVersion(early, device)
    ensures HighestVersion(early + [t], device) == s.version && IsFirstHighest(s, early + [t], device)
  {
    var all, n := early + [t], |early|;
    assert all[..n] == early && all[n] == t;
    HighestVersionIsHighest(early, device);
    forall k | 0 <= k < n ensures IsBelow(all[k], device, s.version) {
      assert all[k] in early;
    }
    assert IsFirstAt(s, all, device, s.version, n);
  }

  lemma OldBest(early: seq<Target>, all: seq<Target>, device: Device, s: Selected)
    requires early <= all && HighestVersion(all, device) == HighestVersion(early, device)
    requires IsFirstHighest(s, early, device)
    ensures IsFirstHighest(s, all, device)
  {
    var best := HighestVersion(early, device);
    if best != 0 {
      var i: nat :| IsFirstAt(s, early, device, best, i);
      assert all[i] == early[i] && forall k | 0 <= k < i :: all[k] == early[k];
      assert IsFirstAt(s, all, device, best, i);
    }
  }

  /** The scan takes every target up to the first that is no JSON or has no version, or that is above the
      best version so far and malformed; not a target further. */
  lemma ScanEndsAtError(targets: seq<Target>, device: Device, n: nat, i: nat)
    requires Scanned(targets, device, n) && i < |targets|
    ensures !targets[i].isValid || targets[i].version.None? ==> n <= i
    ensures i == n && targets[i].isValid && targets[i].version.Some? ==>
              && targets[i].version.value > HighestVersion(targets[..i], device)
              && Judge(targets[i], device).Malformed?
    ensures i < n && targets[i].version.value > HighestVersion(targets[..i], device) ==>
              !Judge(targets[i], device).Malformed?
  {
    assert StopsAt(targets, device, i) <==> Stops(targets[i], device, HighestVersion(targets[..i], device));
  }

  /** Of several eligible targets of the highest version the first wins. */
  lemma FirstWins(s: Selected, targets: seq<Target>, device: Device, i: nat)
    requires IsFirstHighest(s, targets, device) && i < |targets| && Judge(targets[i], device).Eligible?
    requires targets[i].version.value == HighestVersion(targets, device) > 0
    requires forall k | 0 <= k < i && Judge(targets[k], device).Eligible? ::
               targets[k].version.value < HighestVersion(targets, device)
    ensures Judge(targets[i], device) == Eligible(s)
  {
    var best := HighestVersion(targets, device);
    var j: nat :| IsFirstAt(s, targets, device, best, j);
    assert targets[j].version.value == best;
  }

  /** A selection was meant for the device by one of the targets. */
  lemma SelectionIsMeant(targets: seq<Target>, device: Device, n: nat, s: Selected)
    requires n <= |targets| && IsFirstHighest(s, targets[..n], device) && s != NoTarget()
    ensures exists t :: t in targets && MeantFor(t, device, s)
  {
    var t := FirstHighestIsMember(s, targets[..n], device);
    EligibleIff(t, device, s);
    assert t in targets;
  }

  /** The manifest decides: only one target is the first of the highest version in what is scanned. */
  lemma SelectionIsUnique(targets: seq<Target>, device: Device, n: nat, m: nat, s: Selected, t: Selected)
    requires Scanned(targets, device, n) && IsFirstHighest(s, targets[..n], device)
    requires Scanned(targets, device, m) && IsFirstHighest(t, targets[..m], device)
    ensures n == m && s == t
  {
    assert n == m;
    FirstHighestIsUnique(targets[..n], device, s, t);
  }

  lemma FirstHighestIsUnique(targets: seq<Target>, device: Device, s: Selected, t: Selected)
    requires IsFirstHighest(s, targets, device) && IsFirstHighest(t, targets, device)
    ensures s == t
  {
    var best := HighestVersion(targets, device);
    if best != 0 {
      var i: nat :| IsFirstAt(s, targets, device, best, i);
      var j: nat :| IsFirstAt(t, targets, device, best, j);
      assert i == j;
    }
  }

  // ---------- order does not matter ----------

  /** No target can stop the scan. */
  ghost predicate WellFormed(targets: seq<Target>, device: Device) {
    forall t | t in targets :: t.isValid && t.version.Some? && !Judge(t, device).Malformed?
  }

  /** Different eligible targets have different versions. */
  ghost predicate DistinctVersions(targets: seq<Target>, device: Device) {
    forall t, u | t in targets && u in targets && Judge(t, device).Eligible? && Judge(u, device).Eligible?
      && t.version == u.version :: t == u
  }

  lemma WellFormedScansAll(targets: seq<Target>, device: Device, n: nat)
    requires WellFormed(targets, device) && Scanned(targets, device, n)
    ensures n == |targets|
  {
    forall i | 0 <= i < |targets| ensures !StopsAt(targets, device, i) {
      assert targets[i] in targets;
    }
  }

  lemma SameTargetsSameHighest(a: seq<Target>, b: seq<Target>, device: Device)
    requires forall t :: t in a <==> t in b
    ensures HighestVersion(a, device) == HighestVersion(b, device)
  {
    HighestVersionIsHighest(a, device);
    HighestVersionIsHighest(b, device);
  }

  lemma FirstHighestIsMember(s: Selected, targets: seq<Target>, device: Device) returns (t: Target)
    requires IsFirstHighest(s, targets, device) && HighestVersion(targets, device) != 0
    ensures t in targets && Judge(t, device) == Eligible(s) && s.version == HighestVersion(targets, device)
  {
    var i: nat :| IsFirstAt(s, targets, device, HighestVersion(targets, device), i);
    t := targets[i];
  }

  /** For two manifests with the same targets, all well formed and of different versions, the selection is
      the same whatever their order. */
  lemma OrderDoesNotMatter(a: seq<Target>, b: seq<Target>, device: Device, n: nat, m: nat, s: Selected, t: Selected)
    requires multiset(a) == multiset(b) && WellFormed(a, device) && DistinctVersions(a, device)
    requires Scanned(a, device, n) && IsFirstHighest(s, a[..n], device)
    requires Scanned(b, device, m) && IsFirstHighest(t, b[..m], device)
    ensures s == t
  {
    assert forall x :: x in a <==> x in multiset(a);
    assert forall x :: x in b <==> x in multiset(b);
    WellFormedScansAll(a, device, n);
    WellFormedScansAll(b, device, m);
    assert a[..n] == a && b[..m] == b;
    SameTargetsSameChoice(a, b, device, s, t);
  }

  lemma SameTargetsSameChoice(a: seq<Target>, b: seq<Target>, device: Device, s: Selected, t: Selected)
    requires forall x :: x in a <==> x in b
    requires DistinctVersions(a, device) && IsFirstHighest(s, a, device) && IsFirstHighest(t, b, device)
    ensures s == t
  {
    SameTargetsSameHighest(a, b, device);
    if HighestVersion(a, device) != 0 {
      var x := FirstHighestIsMember(s, a, device);
      var y := FirstHighestIsMember(t, b, device);
      assert x == y;
    }
  }
}
