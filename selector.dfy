/**
 The device selector of `main` (src/main.cpp:420-473): from the devices the
 SDK lists and the parsed flags it builds `fw_dev_lists`, the ordered indices
 of the devices to upgrade. Device information is an input record; a device
 whose information query returned null is `None`.
 */
module Selector {
  import opened Wrappers
  import opened Hex
  import opened Options

  /** The fields of an `ob_device_info` the updater compares or stores. */
  datatype DeviceInfo = DeviceInfo(uid: string, sn: string, pid: uint16)

  /** The `switch( optpar_devtype )` test: exact, case-sensitive comparison; the pid is compared as `%X` text. */
  predicate Matches(d: DeviceInfo, t: DevType, arg: string)
  {
    match t
    case ByUid => d.uid == arg
    case BySn => d.sn == arg
    case ByPid => arg == FormatHex(d.pid)
  }

  /** Whether the selector pushes device `d` under flags `f`. */
  predicate Picked(d: Option<DeviceInfo>, f: Flags)
    requires Consistent(f)
  {
    if f.all then true
    else f.devOnly && d.Some? && Matches(d.value, f.devType, ArgFor(f, f.devType).value)
  }

  /** The indices below `n` that are picked, in increasing order. */
  function SelectedBelow(devs: seq<Option<DeviceInfo>>, f: Flags, n: nat): seq<nat>
    requires Consistent(f) && n <= |devs|
    decreases n
  {
    if n == 0 then []
    else SelectedBelow(devs, f, n - 1) + (if Picked(devs[n - 1], f) then [n - 1] else [])
  }

  function Selected(devs: seq<Option<DeviceInfo>>, f: Flags): seq<nat>
    requires Consistent(f)
  {
    SelectedBelow(devs, f, |devs|)
  }

  predicate StrictlyIncreasing(s: seq<nat>)
  {
    forall i, j :: 0 <= i < j < |s| ==> s[i] < s[j]
  }

  function Range(n: nat): (r: seq<nat>)
    ensures |r| == n && forall i :: 0 <= i < n ==> r[i] == i
  {
    seq(n, i => i)
  }

  lemma {:induction false} SelectedBelowShape(devs: seq<Option<DeviceInfo>>, f: Flags, n: nat)
    requires Consistent(f) && n <= |devs|
    ensures StrictlyIncreasing(SelectedBelow(devs, f, n))
    ensures forall i :: 0 <= i < |SelectedBelow(devs, f, n)| ==> SelectedBelow(devs, f, n)[i] < n
    ensures forall i :: 0 <= i < n ==> (i in SelectedBelow(devs, f, n) <==> Picked(devs[i], f))
    decreases n
  {
    if n > 0 {
      var prev := SelectedBelow(devs, f, n - 1);
      SelectedBelowShape(devs, f, n - 1);
      assert SelectedBelow(devs, f, n) == prev + (if Picked(devs[n - 1], f) then [n - 1] else []);
      assert n - 1 !in prev;
    }
  }

  lemma {:induction false} SelectedBelowAll(devs: seq<Option<DeviceInfo>>, f: Flags, n: nat)
    requires Consistent(f) && n <= |devs| && f.all
    ensures SelectedBelow(devs, f, n) == Range(n)
    decreases n
  {
    if n > 0 {
      SelectedBelowAll(devs, f, n - 1);
    }
  }

  lemma {:induction false} SelectedBelowNone(devs: seq<Option<DeviceInfo>>, f: Flags, n: nat)
    requires Consistent(f) && n <= |devs| && !f.all && !f.devOnly
    ensures SelectedBelow(devs, f, n) == []
    decreases n
  {
    if n > 0 {
      SelectedBelowNone(devs, f, n - 1);
    }
  }

  /**
   What the selector promises: in `all` mode every index in order; in `devonly`
   mode exactly the matching indices, in increasing order; otherwise nothing.
   */
  lemma SelectedProperties(devs: seq<Option<DeviceInfo>>, f: Flags)
    requires Consistent(f)
    ensures f.all ==> Selected(devs, f) == Range(|devs|)
    ensures f.devOnly ==> StrictlyIncreasing(Selected(devs, f))
    ensures f.devOnly ==> forall k :: 0 <= k < |Selected(devs, f)| ==> Selected(devs, f)[k] < |devs|
    ensures f.devOnly ==> forall i :: 0 <= i < |devs| ==>
      (i in Selected(devs, f) <==> devs[i].Some? && Matches(devs[i].value, f.devType, ArgFor(f, f.devType).value))
    ensures !f.all && !f.devOnly ==> Selected(devs, f) == []
  {
    SelectedBelowShape(devs, f, |devs|);
    if f.all {
      SelectedBelowAll(devs, f, |devs|);
    } else if !f.devOnly {
      SelectedBelowNone(devs, f, |devs|);
    }
  }

  /** The two selection loops, pushing into `fw_dev_lists`. */
  method SelectDevices(devs: seq<Option<DeviceInfo>>, f: Flags) returns (sel: seq<nat>)
    requires Consistent(f)
    ensures sel == Selected(devs, f)
    ensures f.all ==> sel == Range(|devs|)
    ensures f.devOnly ==> StrictlyIncreasing(sel) && forall k :: 0 <= k < |sel| ==> sel[k] < |devs|
    ensures f.devOnly ==> forall i :: 0 <= i < |devs| ==>
      (i in sel <==> devs[i].Some? && Matches(devs[i].value, f.devType, ArgFor(f, f.devType).value))
    ensures !f.all && !f.devOnly ==> sel == []
  {
    sel := [];
    if f.all {
      var cnt := 0;
      while cnt < |devs|
        invariant 0 <= cnt <= |devs|
        invariant sel == SelectedBelow(devs, f, cnt)
      {
        sel := sel + [cnt];
        cnt := cnt + 1;
      }
    } else if f.devOnly {
      var cnt := 0;
      while cnt < |devs|
        invariant 0 <= cnt <= |devs|
        invariant sel == SelectedBelow(devs, f, cnt)
      {
        var info := devs[cnt];
        if info.Some? {
          var d := info.value;
          var usbPid := FormatHex(d.pid);
          match f.devType
          case ByUid =>
            if d.uid == f.devUid.value {
              sel := sel + [cnt];
            }
          case BySn =>
            if d.sn == f.devSn.value {
              sel := sel + [cnt];
            }
          case ByPid =>
            if f.devUsbPid.value == usbPid {
              sel := sel + [cnt];
            }
        }
        cnt := cnt + 1;
      }
    }
    SelectedProperties(devs, f);
  }

  /** Three devices, only the second with serial number "B": selecting by sn "B" gives [1]. */
  lemma SerialExample(f: Flags, a: DeviceInfo, b: DeviceInfo, c: DeviceInfo)
    requires Consistent(f) && !f.all && f.devOnly && f.devType == BySn && f.devSn == Some("B")
    requires a.sn != "B" && b.sn == "B" && c.sn != "B"
    ensures Selected([Some(a), Some(b), Some(c)], f) == [1]
  {
    var devs := [Some(a), Some(b), Some(c)];
    assert SelectedBelow(devs, f, 1) == [];
    assert SelectedBelow(devs, f, 2) == [1];
  }

  /** `-p` picks a device exactly when its argument is the canonical upper-case hex spelling of the pid. */
  lemma PidSelectionIff(d: DeviceInfo, arg: string)
    ensures Matches(d, ByPid, arg) <==> IsCanonicalHex(arg) && HexValue(arg) == d.pid
  {
    PidArgMatches(arg, d.pid);
  }
}
