/**
 The rest of `main`: the firmware-file check and the per-device upgrade loop
 (src/main.cpp:475-548), and the whole run from argv to the exit code.

 The SDK is replaced by inputs: the device list with each device's
 information, whether `access(fw, 0)` succeeds, the progress events the
 upgrade of device i reports (`progress(i)`) and the device-changed
 notifications that follow its reboot (`changes(i)`).
 */
module Driver {
  import opened Wrappers
  import opened CStrings
  import opened ProgName
  import opened Options
  import opened Selector
  import opened Upgrade

  /** The position in `sel` of the first device whose upgrade fails, if any. */
  function FirstFailure(fw: string, sel: seq<nat>, progress: nat -> seq<ProgressEvent>): (r: Option<nat>)
    ensures r.Some? ==> r.value < |sel| && !UpgradeOk(fw, progress(sel[r.value]))
    ensures r.Some? ==> forall j :: 0 <= j < r.value ==> UpgradeOk(fw, progress(sel[j]))
    ensures r.None? ==> forall j :: 0 <= j < |sel| ==> UpgradeOk(fw, progress(sel[j]))
    decreases |sel|
  {
    if sel == [] then None
    else if !UpgradeOk(fw, progress(sel[0])) then Some(0)
    else
      match FirstFailure(fw, sel[1..], progress)
      case None => None
      case Some(k) => Some(k + 1)
  }

  /** The devices the loop attempts: all of them, or up to and including the first failure. */
  function Attempts(fw: string, sel: seq<nat>, progress: nat -> seq<ProgressEvent>): seq<nat>
  {
    match FirstFailure(fw, sel, progress)
    case None => sel
    case Some(k) => sel[..k + 1]
  }

  /** The loop's exit code: -1 at the first failed upgrade, 0 after the last device. */
  function LoopExit(fw: string, sel: seq<nat>, progress: nat -> seq<ProgressEvent>): int
  {
    if FirstFailure(fw, sel, progress).Some? then -1 else 0
  }

  /**
   Devices are attempted in selection order and nothing after the first
   failure is attempted: the attempts are a prefix of the selection, every
   attempt but the last succeeded, and the last failed exactly when the exit
   code is -1.
   */
  lemma AttemptsArePrefix(fw: string, sel: seq<nat>, progress: nat -> seq<ProgressEvent>)
    ensures Attempts(fw, sel, progress) <= sel
    ensures forall j :: 0 <= j < |Attempts(fw, sel, progress)| - 1 ==> UpgradeOk(fw, progress(sel[j]))
    ensures LoopExit(fw, sel, progress) == -1 <==> exists j :: 0 <= j < |sel| && !UpgradeOk(fw, progress(sel[j]))
    ensures LoopExit(fw, sel, progress) == -1 ==>
      |Attempts(fw, sel, progress)| > 0 && !UpgradeOk(fw, progress(sel[|Attempts(fw, sel, progress)| - 1]))
    ensures LoopExit(fw, sel, progress) == 0 ==> Attempts(fw, sel, progress) == sel
  {
  }

  /** The loop's early exit: device `sel[cnt]` is the first to fail. */
  lemma StopsAt(fw: string, sel: seq<nat>, progress: nat -> seq<ProgressEvent>, cnt: nat)
    requires cnt < |sel| && !UpgradeOk(fw, progress(sel[cnt]))
    requires forall j :: 0 <= j < cnt ==> UpgradeOk(fw, progress(sel[j]))
    ensures LoopExit(fw, sel, progress) == -1 && Attempts(fw, sel, progress) == sel[..cnt + 1]
  {
  }

  /** The loop's normal exit: every device upgraded. */
  lemma RunsThrough(fw: string, sel: seq<nat>, progress: nat -> seq<ProgressEvent>)
    requires forall j :: 0 <= j < |sel| ==> UpgradeOk(fw, progress(sel[j]))
    ensures LoopExit(fw, sel, progress) == 0 && Attempts(fw, sel, progress) == sel
  {
  }

  /** The identity stored before the upgrade; glibc's `%s` writes "(null)" for a null string. */
  function IdentityOf(d: Option<DeviceInfo>): (id: (string, string))
    ensures d.Some? ==> id.0 == d.value.uid && id.1 == d.value.sn
    ensures d.None? ==> id.0 == "(null)" && id.1 == "(null)"
  {
    match d
    case Some(info) => (info.uid, info.sn)
    case None => ("(null)", "(null)")
  }

  /**
   One pass of the `for` loop over `fw_dev_lists`: store the identity and
   upgrade; when that succeeds, reboot, wait, and report "Ok." (true) or
   "Failure." (false). Notifications the wait does not consume are handled
   after the report.
   */
  method UpgradeDevice(s: Session, info: Option<DeviceInfo>, fw: string,
                       progress: seq<ProgressEvent>, arrivals: seq<ChangeEvent>)
    returns (ok: bool, report: bool)
    modifies s
    ensures ok == UpgradeOk(fw, progress)
    ensures report ==> ok
    ensures s.deviceUid == Truncate(IdentityOf(info).0, UidBufSize)
    ensures s.deviceSn == Truncate(IdentityOf(info).1, SnBufSize)
    ensures !old(s.isWaitRebootComplete) && old(s.rebootedDevice).None? ==>
      !s.isWaitRebootComplete && s.rebootedDevice.None? && !report
  {
    var (uid, sn) := IdentityOf(info);
    s.StoreIdentity(uid, sn);
    ok := s.UpgradeFirmware(fw, progress);
    report := false;
    if !ok {
      return;
    }
    // ob_device_reboot is an SDK call; the device's notifications follow it
    ghost var inert := !s.isWaitRebootComplete && s.rebootedDevice.None?;
    ghost var w := s.Watch();
    var consumed := s.WaitRebootComplete(arrivals);
    RecordedIff(w, arrivals[..consumed]);
    if inert {
      assert arrivals[..consumed] == [];
    }
    report := s.RebootConfirmed();
    var k := consumed;
    while k < |arrivals|
      invariant consumed <= k <= |arrivals|
      invariant inert ==> !s.isWaitRebootComplete && s.rebootedDevice.None?
      invariant s.deviceUid == Truncate(uid, UidBufSize) && s.deviceSn == Truncate(sn, SnBufSize)
    {
      s.OnDeviceChanged(arrivals[k]);
      k := k + 1;
    }
  }

  /** The `for` loop over `fw_dev_lists`: stop with -1 at the first failed upgrade, else return 0. */
  method DriveUpgrades(s: Session, devs: seq<Option<DeviceInfo>>, sel: seq<nat>, fw: string,
                       progress: nat -> seq<ProgressEvent>, changes: nat -> seq<ChangeEvent>)
    returns (code: int, attempted: seq<nat>, confirmed: seq<bool>)
    requires forall k :: 0 <= k < |sel| ==> sel[k] < |devs|
    modifies s
    ensures code == LoopExit(fw, sel, progress)
    ensures attempted == Attempts(fw, sel, progress)
    ensures |confirmed| == if code == 0 then |attempted| else |attempted| - 1
    ensures !old(s.isWaitRebootComplete) && old(s.rebootedDevice).None? ==>
      forall k :: 0 <= k < |confirmed| ==> !confirmed[k]
  {
    ghost var inert := !s.isWaitRebootComplete && s.rebootedDevice.None?;
    attempted, confirmed := [], [];
    var cnt := 0;
    while cnt < |sel|
      invariant 0 <= cnt <= |sel|
      invariant attempted == sel[..cnt] && |confirmed| == cnt
      invariant forall j :: 0 <= j < cnt ==> UpgradeOk(fw, progress(sel[j]))
      invariant inert ==> !s.isWaitRebootComplete && s.rebootedDevice.None?
      invariant inert ==> forall k :: 0 <= k < |confirmed| ==> !confirmed[k]
    {
      var dev := sel[cnt];
      var ok, report := UpgradeDevice(s, devs[dev], fw, progress(dev), changes(dev));
      attempted := attempted + [dev];
      assert attempted == sel[..cnt + 1];
      if !ok {
        StopsAt(fw, sel, progress, cnt);
        code := -1;
        return;
      }
      confirmed := confirmed + [report];
      cnt := cnt + 1;
    }
    assert attempted == sel;
    RunsThrough(fw, sel, progress);
    code := 0;
  }

  /**
   `main` from argv to its return value, with the program name it derives,
   the devices it attempted and, for each device that upgraded, whether the
   reboot was confirmed.
   */
  method RunUpdater(argv0: string, events: seq<OptEvent>, positionals: seq<string>,
                    devs: seq<Option<DeviceInfo>>, fwAccessible: bool,
                    progress: nat -> seq<ProgressEvent>, changes: nat -> seq<ChangeEvent>)
    returns (me: Option<string>, code: int, attempted: seq<nat>, confirmed: seq<bool>)
    ensures me == LastOf(Tokens(argv0))
    ensures var a := Decide(ParseSpec(events, positionals), |devs|);
      !a.Select? ==> code == 0 && attempted == [] && confirmed == []
    ensures var a := Decide(ParseSpec(events, positionals), |devs|);
      a.Select? ==> (
        Consistent(a.flags) &&
        var sel := Selected(devs, a.flags);
        (sel == [] ==> code == 0 && attempted == []) &&
        (sel != [] && (a.fwFile.None? || !fwAccessible) ==> code == 0 && attempted == []) &&
        (sel != [] && a.fwFile.Some? && fwAccessible ==>
          code == LoopExit(a.fwFile.value, sel, progress) && attempted == Attempts(a.fwFile.value, sel, progress)))
    ensures code == 0 || code == -1
    ensures forall k :: 0 <= k < |confirmed| ==> !confirmed[k]
  {
    me := ProgramName(argv0);
    attempted, confirmed := [], [];
    var r := ParseOptions(events, positionals);
    var a := Decide(r, |devs|);
    if !a.Select? {
      return me, ExitCode(a), attempted, confirmed;
    }
    var f := a.flags;
    var sel := SelectDevices(devs, f);
    if |sel| > 0 && (a.fwFile.None? || !fwAccessible) {
      return me, 0, attempted, confirmed;
    }
    var s := new Session();
    var fw := if a.fwFile.Some? then a.fwFile.value else "";
    code, attempted, confirmed := DriveUpgrades(s, devs, sel, fw, progress, changes);
    if sel == [] {
      assert FirstFailure(fw, sel, progress).None?;
    }
  }
}
