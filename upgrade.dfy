/**
 The global state the updater shares with the SDK's callbacks
 (src/main.cpp:77-85) and the code that reads and writes it: the upgrade
 progress callback and `upgrade_firmware` (src/main.cpp:224-256), the
 device-changed callback (src/main.cpp:142-206), the storing of the expected
 identity (src/main.cpp:503-506), the reboot wait and its result check
 (src/main.cpp:525-543).

 The SDK's callbacks are modelled as calls made in sequence: the upgrade
 progress events arrive during the upgrade call, the device-changed
 notifications for a device after its reboot call.
 */
module Upgrade {
  import opened Wrappers
  import opened CStrings
  import opened Selector

  /** `ob_upgrade_state`: the updater tells only `STAT_DONE` apart from the other states. */
  datatype UpgradeState = StatDone | OtherState(code: int)

  /** One call of `dev_upgrade_cb`; the message and the percentage are only printed. */
  datatype ProgressEvent = ProgressEvent(state: UpgradeState, msg: string, percent: nat)

  /**
   One call of `dev_changed_cb`: the list of removed devices (their uids) and
   the list of added devices (their information); either list may be null.
   */
  datatype ChangeEvent = ChangeEvent(removed: Option<seq<string>>, added: Option<seq<DeviceInfo>>)

  /** The reboot-watch globals: waiting, removed, the rebooted device, the stored uid and sn. */
  datatype WatchState = WatchState(waiting: bool, removed: bool, rebooted: Option<DeviceInfo>, uid: string, sn: string)

  /** The first added device has the stored serial number. */
  predicate AddMatches(e: ChangeEvent, sn: string)
  {
    e.added.Some? && |e.added.value| > 0 && e.added.value[0].sn == sn
  }

  /** The first removed device has the stored uid. */
  predicate RemoveMatches(e: ChangeEvent, uid: string)
  {
    e.removed.Some? && |e.removed.value| > 0 && e.removed.value[0] == uid
  }

  /** `dev_changed_cb` as a step function; the waiting flag is tested once, on entry. */
  function Step(w: WatchState, e: ChangeEvent): WatchState
  {
    if !w.waiting then w
    else
      var afterAdd := if AddMatches(e, w.sn) then w.(rebooted := Some(e.added.value[0]), waiting := false) else w;
      if RemoveMatches(e, w.uid) then afterAdd.(removed := true) else afterAdd
  }

  function Deliver(w: WatchState, es: seq<ChangeEvent>): WatchState
    decreases |es|
  {
    if es == [] then w else Deliver(Step(w, es[0]), es[1..])
  }

  /** An armed watch records the first added device when its sn is the stored one, and disarms. */
  lemma StepAddMatch(w: WatchState, e: ChangeEvent)
    requires w.waiting && AddMatches(e, w.sn)
    ensures Step(w, e).rebooted == Some(e.added.value[0]) && !Step(w, e).waiting
    ensures Step(w, e).removed == (w.removed || RemoveMatches(e, w.uid))
  {
  }

  /** A matching removal only sets `removed`; the watch stays armed. */
  lemma StepRemoveMatch(w: WatchState, e: ChangeEvent)
    requires w.waiting && RemoveMatches(e, w.uid) && !AddMatches(e, w.sn)
    ensures Step(w, e) == w.(removed := true)
  {
  }

  /**
   The rebooted device is recorded by the end of a sequence of notifications
   exactly when it was recorded already, or the watch was armed and some
   notification's first added device has the stored serial number.
   */
  lemma {:induction false} RecordedIff(w: WatchState, es: seq<ChangeEvent>)
    ensures Deliver(w, es).rebooted.Some? <==>
      w.rebooted.Some? || (w.waiting && exists i :: 0 <= i < |es| && AddMatches(es[i], w.sn))
    ensures Deliver(w, es).uid == w.uid && Deliver(w, es).sn == w.sn
    decreases |es|
  {
    if es != [] {
      var w1 := Step(w, es[0]);
      RecordedIff(w1, es[1..]);
      forall i | 0 <= i < |es[1..]| ensures es[1..][i] == es[i + 1] { }
      if w.waiting && !AddMatches(es[0], w.sn) {
        if exists i :: 0 <= i < |es| && AddMatches(es[i], w.sn) {
          var i :| 0 <= i < |es| && AddMatches(es[i], w.sn);
          assert i > 0 && AddMatches(es[1..][i - 1], w1.sn);
        }
      }
    }
  }

  /** When the watch is not armed, no notification changes anything. */
  lemma {:induction false} InertWhenNotWaiting(w: WatchState, es: seq<ChangeEvent>)
    requires !w.waiting
    ensures Deliver(w, es) == w
    decreases |es|
  {
    if es != [] {
      InertWhenNotWaiting(w, es[1..]);
    }
  }

  /** The initial reboot-watch state of the globals. */
  const InitialWatch := WatchState(false, false, None, "", "")

  /**
   Nothing in the program arms the watch, so from the initial state no
   notification ever records a rebooted device and the check prints "Failure.".
   */
  lemma AlwaysFailure(uid: string, sn: string, es: seq<ChangeEvent>)
    ensures Deliver(InitialWatch.(uid := uid, sn := sn), es).rebooted.None?
  {
    InertWhenNotWaiting(InitialWatch.(uid := uid, sn := sn), es);
  }

  /** The firmware file test of `upgrade_firmware`: ".img" or ".bin" anywhere in the path. */
  predicate PathAccepted(path: string)
  {
    Contains(path, ".img") || Contains(path, ".bin")
  }

  lemma PathAcceptedIff(path: string)
    ensures PathAccepted(path) <==>
      (exists i: nat :: OccursAt(path, ".img", i)) || (exists i: nat :: OccursAt(path, ".bin", i))
  {
    ContainsIff(path, ".img");
    ContainsIff(path, ".bin");
  }

  /** An occurrence at a known index makes `strstr` succeed. */
  lemma OccursGivesContains(s: string, pat: string, i: nat)
    requires OccursAt(s, pat, i)
    ensures Contains(s, pat)
  {
    ContainsIff(s, pat);
  }

  /** The extension is found anywhere, not only at the end: "fw.bin.old" is accepted. */
  lemma PathAcceptedExamples()
    ensures PathAccepted("fw.img") && PathAccepted("fw.bin.old")
  {
    var a, b := "fw.img", "fw.bin.old";
    assert a[2..6] == ".img";
    assert b[2..6] == ".bin";
    OccursGivesContains(a, ".img", 2);
    OccursGivesContains(b, ".bin", 2);
  }

  /** `pat` does not occur where its first two characters never occur together. */
  lemma NoOccurrence(s: string, pat: string)
    requires |pat| >= 2
    requires forall i :: 0 <= i && i + |pat| <= |s| ==> s[i] != pat[0] || s[i + 1] != pat[1]
    ensures !Contains(s, pat)
  {
    ContainsIff(s, pat);
    forall i: nat ensures !OccursAt(s, pat, i) {
      if i + |pat| <= |s| {
        assert s[i..i + |pat|][0] == s[i] && s[i..i + |pat|][1] == s[i + 1];
      }
    }
  }

  /** "fw.im" is one character short of ".img". */
  lemma TruncatedImgRejected()
    ensures !PathAccepted("fw.im")
  {
    var a := "fw.im";
    assert a[0] == 'f' && a[1] == 'w';
    NoOccurrence(a, ".img");
    NoOccurrence(a, ".bin");
  }

  lemma ZipRejected()
    ensures !PathAccepted("fw.zip")
  {
    var b := "fw.zip";
    assert b[0] == 'f' && b[1] == 'w' && b[2] == '.' && b[3] == 'z';
    NoOccurrence(b, ".img");
    NoOccurrence(b, ".bin");
  }

  /** A path with neither text is refused: "fw.im" and "fw.zip". */
  lemma PathRejectedExamples()
    ensures !PathAccepted("fw.im") && !PathAccepted("fw.zip")
  {
    TruncatedImgRejected();
    ZipRejected();
  }

  predicate ReachedDone(events: seq<ProgressEvent>)
  {
    exists i :: 0 <= i < |events| && events[i].state == StatDone
  }

  /** What `upgrade_firmware` returns for a path and the progress events the SDK reports. */
  predicate UpgradeOk(path: string, events: seq<ProgressEvent>)
  {
    PathAccepted(path) && ReachedDone(events)
  }

  /** A transfer that reports progress and then `STAT_DONE` succeeds; one that never reports it fails. */
  lemma UpgradeExamples(path: string, other: int)
    requires PathAccepted(path)
    ensures UpgradeOk(path, [ProgressEvent(OtherState(other), "", 50), ProgressEvent(StatDone, "", 100)])
    ensures !UpgradeOk(path, [ProgressEvent(OtherState(other), "", 50)])
  {
    var evs := [ProgressEvent(OtherState(other), "", 50), ProgressEvent(StatDone, "", 100)];
    assert evs[1].state == StatDone;
  }

  /** `device_uid_[128]` and `device_sn_[32]`. */
  const UidBufSize: nat := 128
  const SnBufSize: nat := 32

  class Session {
    var isWaitRebootComplete: bool
    var isDeviceRemoved: bool
    var isUpgradeSuccess: bool
    var rebootedDevice: Option<DeviceInfo>
    var deviceUid: string
    var deviceSn: string

    function Watch(): WatchState
      reads this
    {
      WatchState(isWaitRebootComplete, isDeviceRemoved, rebootedDevice, deviceUid, deviceSn)
    }

    /** The globals' initial values. */
    constructor ()
      ensures Watch() == InitialWatch && !isUpgradeSuccess
    {
      isWaitRebootComplete := false;
      isDeviceRemoved := false;
      isUpgradeSuccess := false;
      rebootedDevice := None;
      deviceUid := "";
      deviceSn := "";
    }

    /** `snprintf(device_uid_, 128, "%s", uid)` and `snprintf(device_sn_, 32, "%s", sn)`. */
    method StoreIdentity(uid: string, sn: string)
      modifies this
      ensures deviceUid == Truncate(uid, UidBufSize) && deviceSn == Truncate(sn, SnBufSize)
      ensures |deviceUid| < UidBufSize && |deviceSn| < SnBufSize
      ensures isWaitRebootComplete == old(isWaitRebootComplete) && isDeviceRemoved == old(isDeviceRemoved)
      ensures rebootedDevice == old(rebootedDevice) && isUpgradeSuccess == old(isUpgradeSuccess)
    {
      deviceUid := Truncate(uid, UidBufSize);
      deviceSn := Truncate(sn, SnBufSize);
    }

    /** `dev_changed_cb`. */
    method OnDeviceChanged(e: ChangeEvent)
      modifies this
      ensures Watch() == Step(old(Watch()), e)
      ensures isUpgradeSuccess == old(isUpgradeSuccess)
    {
      if isWaitRebootComplete {
        if e.added.Some? {
          var ads := e.added.value;
          if |ads| > 0 {
            var device := ads[0];
            if device.sn == deviceSn {
              rebootedDevice := Some(device);
              isWaitRebootComplete := false;
            }
          }
        }
        if e.removed.Some? {
          var rmd := e.removed.value;
          if |rmd| > 0 {
            if deviceUid == rmd[0] {
              isDeviceRemoved := true;
            }
          }
        }
      }
    }

    /** `dev_upgrade_cb`: only `STAT_DONE` changes state. */
    method OnUpgradeProgress(ev: ProgressEvent)
      modifies this
      ensures isUpgradeSuccess == (old(isUpgradeSuccess) || ev.state == StatDone)
      ensures Watch() == old(Watch())
    {
      if ev.state == StatDone {
        isUpgradeSuccess := true;
      }
    }

    /**
     `upgrade_firmware`: a path without ".img" or ".bin" is refused before the
     upgrade call; otherwise the success flag is cleared, the SDK reports its
     progress events, and the flag is the result.
     */
    method UpgradeFirmware(path: string, events: seq<ProgressEvent>) returns (ok: bool)
      modifies this
      ensures ok == UpgradeOk(path, events)
      ensures isUpgradeSuccess == if PathAccepted(path) then ok else old(isUpgradeSuccess)
      ensures Watch() == old(Watch())
    {
      var isImgFile := FindSub(path, ".img").Some?;
      var isBinFile := FindSub(path, ".bin").Some?;
      if !(isImgFile || isBinFile) {
        return false;
      }
      isUpgradeSuccess := false;
      var i := 0;
      while i < |events|
        invariant 0 <= i <= |events|
        invariant isUpgradeSuccess == exists j :: 0 <= j < i && events[j].state == StatDone
        invariant Watch() == old(Watch())
      {
        OnUpgradeProgress(events[i]);
        i := i + 1;
      }
      ok := isUpgradeSuccess;
    }

    /**
     `wait_for(lk, 60s, []{ return !is_wait_reboot_complete_; })`: the
     notifications that arrive before the timeout are handled one by one while
     the watch is armed; once it is not armed the wait returns. It returns how
     many notifications it consumed.
     */
    method WaitRebootComplete(arrivals: seq<ChangeEvent>) returns (consumed: nat)
      modifies this
      ensures consumed <= |arrivals|
      ensures Watch() == Deliver(old(Watch()), arrivals[..consumed])
      ensures consumed < |arrivals| ==> !isWaitRebootComplete
      ensures forall j :: 0 <= j < consumed ==> Deliver(old(Watch()), arrivals[..j]).waiting
      ensures !old(isWaitRebootComplete) ==> consumed == 0
      ensures isUpgradeSuccess == old(isUpgradeSuccess)
    {
      consumed := 0;
      while isWaitRebootComplete && consumed < |arrivals|
        invariant consumed <= |arrivals|
        invariant Watch() == Deliver(old(Watch()), arrivals[..consumed])
        invariant !old(isWaitRebootComplete) ==> consumed == 0
        invariant forall j :: 0 <= j < consumed ==> Deliver(old(Watch()), arrivals[..j]).waiting
        invariant isUpgradeSuccess == old(isUpgradeSuccess)
      {
        DeliverSnoc(old(Watch()), arrivals[..consumed], arrivals[consumed]);
        assert arrivals[..consumed + 1] == arrivals[..consumed] + [arrivals[consumed]];
        OnDeviceChanged(arrivals[consumed]);
        consumed := consumed + 1;
      }
    }

    /** `if (rebooted_device_)`: "Ok." when true, "Failure." when false. */
    function RebootConfirmed(): (ok: bool)
      reads this
      ensures ok <==> Watch().rebooted.Some?
    {
      rebootedDevice.Some?
    }
  }

  lemma {:induction false} DeliverSnoc(w: WatchState, es: seq<ChangeEvent>, e: ChangeEvent)
    ensures Deliver(w, es + [e]) == Step(Deliver(w, es), e)
    decreases |es|
  {
    if es == [] {
      assert [e][1..] == [];
    } else {
      DeliverSnoc(Step(w, es[0]), es[1..], e);
      assert (es + [e])[1..] == es[1..] + [e];
    }
  }
}
