/**
 Command-line handling of `main` (src/main.cpp:276-392). `getopt_long` is not
 modelled: its output is taken as the sequence of (option character, argument)
 pairs it returns, and the positional arguments it leaves in argv[optind..].
 The option loop folds those pairs into the `optpar_*` flags and the
 `par_parsed` counter; the checks after it decide whether the run stops early.
 */
module Options {
  import opened Wrappers

  /** One result of `getopt_long`: the option character and `optarg` (None for a null pointer). */
  datatype OptEvent = OptEvent(opt: char, arg: Option<string>)

  /** `optpar_devtype`: 0 == UID, 1 == SN, 2 == USB PID. */
  datatype DevType = ByUid | BySn | ByPid

  /** The `optpar_*` globals and `par_parsed` as the option loop leaves them. */
  datatype Flags = Flags(
    all: bool,
    list: bool,
    versions: bool,
    lessVerbose: bool,
    devOnly: bool,
    devType: DevType,
    devUid: Option<string>,
    devSn: Option<string>,
    devUsbPid: Option<string>,
    parsed: nat)

  /** The globals' initial values (src/main.cpp:60-72) and `par_parsed = 0`. */
  const Initial := Flags(false, false, false, false, false, ByUid, None, None, None, 0)

  /** Either the loop stopped at a help case (and `main` returned 0), or it goes on with these flags. */
  datatype FoldResult = Help | Continue(flags: Flags)

  /** `case 'h'` and `default`: every character the switch has no case for, such as '?' and ':'. */
  predicate IsHelpEvent(e: OptEvent)
  {
    e.opt !in "alevdsp"
  }

  /** The options that increment `par_parsed`: `-e` does not, nor a `-d`/`-s`/`-p` without argument. */
  predicate Counted(e: OptEvent)
  {
    e.opt in "alv" || (e.opt in "dsp" && e.arg.Some?)
  }

  /** The options that set the selection mode: `-a`, and `-d`/`-s`/`-p` with an argument. */
  predicate IsSelector(e: OptEvent)
  {
    e.opt == 'a' || (e.opt in "dsp" && e.arg.Some?)
  }

  /** One pass of the `switch` (src/main.cpp:287-353). */
  function Apply(f: Flags, e: OptEvent): FoldResult
  {
    match e.opt
    case 'a' => Continue(f.(all := true, devOnly := false, parsed := f.parsed + 1))
    case 'l' => Continue(f.(list := true, parsed := f.parsed + 1))
    case 'e' => Continue(f.(lessVerbose := true))
    case 'v' => Continue(f.(versions := true, parsed := f.parsed + 1))
    case 'd' =>
      if e.arg.Some? then Continue(f.(devUid := e.arg, all := false, devOnly := true, devType := ByUid, parsed := f.parsed + 1))
      else Continue(f)
    case 's' =>
      if e.arg.Some? then Continue(f.(devSn := e.arg, all := false, devOnly := true, devType := BySn, parsed := f.parsed + 1))
      else Continue(f)
    case 'p' =>
      if e.arg.Some? then Continue(f.(devUsbPid := e.arg, all := false, devOnly := true, devType := ByPid, parsed := f.parsed + 1))
      else Continue(f)
    case _ => Help
  }

  /** The option loop run over `es` from the flags `f`, events taken first to last. */
  function Fold(f: Flags, es: seq<OptEvent>): FoldResult
    decreases |es|
  {
    if es == [] then Continue(f)
    else
      match Fold(f, es[..|es| - 1])
      case Help => Help
      case Continue(g) => Apply(g, es[|es| - 1])
  }

  /** The argument stored for the selected device attribute. */
  function ArgFor(f: Flags, t: DevType): Option<string>
  {
    match t
    case ByUid => f.devUid
    case BySn => f.devSn
    case ByPid => f.devUsbPid
  }

  /** The selection policy the flags give, read as the selector reads them: `all` first, then `devonly`. */
  datatype Policy = NoPolicy | AllDevices | OnlyMatching(attr: DevType, arg: Option<string>)

  function PolicyOf(f: Flags): Policy
  {
    if f.all then AllDevices
    else if f.devOnly then OnlyMatching(f.devType, ArgFor(f, f.devType))
    else NoPolicy
  }

  /** The policy a selector option sets. */
  function EventPolicy(e: OptEvent): Policy
    requires IsSelector(e)
  {
    match e.opt
    case 'a' => AllDevices
    case 'd' => OnlyMatching(ByUid, e.arg)
    case 's' => OnlyMatching(BySn, e.arg)
    case _ => OnlyMatching(ByPid, e.arg)
  }

  /** The last selector option of `es`, if any. */
  function LastSelector(es: seq<OptEvent>): (r: Option<OptEvent>)
    decreases |es|
    ensures r.Some? ==> IsSelector(r.value)
  {
    if es == [] then None
    else if IsSelector(es[|es| - 1]) then Some(es[|es| - 1])
    else LastSelector(es[..|es| - 1])
  }

  function CountParsed(es: seq<OptEvent>): nat
    decreases |es|
  {
    if es == [] then 0
    else CountParsed(es[..|es| - 1]) + (if Counted(es[|es| - 1]) then 1 else 0)
  }

  /** What the loop keeps true: `all` and `devonly` exclude each other, and `devonly` has its argument. */
  predicate Consistent(f: Flags)
  {
    !(f.all && f.devOnly) && (f.devOnly ==> ArgFor(f, f.devType).Some?)
  }

  /** One option: consistency is kept. */
  lemma ApplyKeepsConsistent(g: Flags, e: OptEvent)
    requires Consistent(g)
    ensures Apply(g, e).Continue? ==> Consistent(Apply(g, e).flags)
  {
    match e.opt
    case 'a' =>
    case 'l' =>
    case 'e' =>
    case 'v' =>
    case 'd' =>
    case 's' =>
    case 'p' =>
    case _ =>
  }

  /** One option: a selector sets its own policy, any other option keeps the policy. */
  lemma ApplyPolicy(g: Flags, e: OptEvent)
    ensures Apply(g, e).Continue? ==>
      PolicyOf(Apply(g, e).flags) == (if IsSelector(e) then EventPolicy(e) else PolicyOf(g))
  {
    match e.opt
    case 'a' =>
    case 'l' =>
    case 'e' =>
    case 'v' =>
    case 'd' =>
    case 's' =>
    case 'p' =>
    case _ =>
  }

  /** One option: the counter grows by one exactly for a counted option. */
  lemma ApplyCounts(g: Flags, e: OptEvent)
    ensures Apply(g, e).Continue? ==> Apply(g, e).flags.parsed == g.parsed + (if Counted(e) then 1 else 0)
  {
    match e.opt
    case 'a' =>
    case 'l' =>
    case 'e' =>
    case 'v' =>
    case 'd' =>
    case 's' =>
    case 'p' =>
    case _ =>
  }

  lemma {:induction false} FoldKeepsConsistent(f: Flags, es: seq<OptEvent>)
    requires Consistent(f)
    ensures Fold(f, es).Continue? ==> Consistent(Fold(f, es).flags)
    decreases |es|
  {
    if es != [] {
      var init := es[..|es| - 1];
      FoldKeepsConsistent(f, init);
      match Fold(f, init)
      case Help =>
      case Continue(g) => ApplyKeepsConsistent(g, es[|es| - 1]);
    }
  }

  /** After any options, `all` and `devonly` are never both set. */
  lemma ModesExclusive(es: seq<OptEvent>)
    ensures Fold(Initial, es).Continue? ==> !(Fold(Initial, es).flags.all && Fold(Initial, es).flags.devOnly)
  {
    FoldKeepsConsistent(Initial, es);
  }

  /** Last wins: the last of `-a`/`-d`/`-s`/`-p` decides the policy, its attribute and its argument. */
  lemma {:induction false} LastSelectorWins(f: Flags, es: seq<OptEvent>)
    ensures Fold(f, es).Continue? ==>
      PolicyOf(Fold(f, es).flags) == (if LastSelector(es).None? then PolicyOf(f) else EventPolicy(LastSelector(es).value))
    decreases |es|
  {
    if es != [] {
      var init := es[..|es| - 1];
      LastSelectorWins(f, init);
      match Fold(f, init)
      case Help =>
      case Continue(g) => ApplyPolicy(g, es[|es| - 1]);
    }
  }

  /** With no selector option at all, neither mode is set. */
  lemma NoSelectorNoMode(es: seq<OptEvent>)
    requires LastSelector(es).None?
    ensures Fold(Initial, es).Continue? ==> !Fold(Initial, es).flags.all && !Fold(Initial, es).flags.devOnly
  {
    LastSelectorWins(Initial, es);
  }

  /** `par_parsed` counts exactly the counted options. */
  lemma {:induction false} FoldCounts(f: Flags, es: seq<OptEvent>)
    ensures Fold(f, es).Continue? ==> Fold(f, es).flags.parsed == f.parsed + CountParsed(es)
    decreases |es|
  {
    if es != [] {
      var init := es[..|es| - 1];
      FoldCounts(f, init);
      match Fold(f, init)
      case Help =>
      case Continue(g) => ApplyCounts(g, es[|es| - 1]);
    }
  }

  /** One option: the loop returns through the help case exactly for a help option. */
  lemma ApplyHelp(g: Flags, e: OptEvent)
    ensures Apply(g, e).Help? <==> IsHelpEvent(e)
  {
    match e.opt
    case 'a' =>
    case 'l' =>
    case 'e' =>
    case 'v' =>
    case 'd' =>
    case 's' =>
    case 'p' =>
    case _ =>
  }

  /** Some event of `es` is a help option. */
  predicate HasHelp(es: seq<OptEvent>)
  {
    exists i :: 0 <= i < |es| && IsHelpEvent(es[i])
  }

  lemma HasHelpSnoc(es: seq<OptEvent>)
    requires es != []
    ensures HasHelp(es) <==> HasHelp(es[..|es| - 1]) || IsHelpEvent(es[|es| - 1])
  {
    var init := es[..|es| - 1];
    if HasHelp(init) {
      var i :| 0 <= i < |init| && IsHelpEvent(init[i]);
      assert es[i] == init[i];
    }
    if HasHelp(es) {
      var i :| 0 <= i < |es| && IsHelpEvent(es[i]);
      if i < |init| {
        assert init[i] == es[i];
      }
    }
  }

  /** The loop returns through the help case exactly when some option is `-h` or unrecognised. */
  lemma {:induction false} HelpIff(f: Flags, es: seq<OptEvent>)
    ensures Fold(f, es).Help? <==> HasHelp(es)
    decreases |es|
  {
    if es != [] {
      var init := es[..|es| - 1];
      HelpIff(f, init);
      HasHelpSnoc(es);
      match Fold(f, init)
      case Help =>
      case Continue(g) => ApplyHelp(g, es[|es| - 1]);
    }
  }

  /** Parsing ends at the help option: whatever follows is never looked at. */
  lemma {:induction false} HelpStopsParsing(f: Flags, es: seq<OptEvent>, more: seq<OptEvent>)
    requires Fold(f, es).Help?
    ensures Fold(f, es + more).Help?
    decreases |more|
  {
    if more == [] {
      assert es + more == es;
    } else {
      var init := more[..|more| - 1];
      HelpStopsParsing(f, es, init);
      assert (es + more)[..|es + more| - 1] == es + init;
    }
  }

  /** What `main` has once options and positionals are read. */
  datatype ParseResult = ShowHelp | Parsed(flags: Flags, fwFile: Option<string>)

  /** The first positional argument (src/main.cpp:359-365). */
  function FirstOf(ps: seq<string>): Option<string>
  {
    if ps == [] then None else Some(ps[0])
  }

  function ParseSpec(es: seq<OptEvent>, positionals: seq<string>): ParseResult
  {
    match Fold(Initial, es)
    case Help => ShowHelp
    case Continue(f) => Parsed(f, FirstOf(positionals))
  }

  /** The `while (optind < argc)` loop: the first positional argument is the firmware file. */
  method FirstPositional(positionals: seq<string>) returns (fwFile: Option<string>)
    ensures fwFile == FirstOf(positionals)
    ensures fwFile.Some? <==> |positionals| > 0
  {
    fwFile := None;
    var k := 0;
    while k < |positionals|
      invariant 0 <= k <= |positionals|
      invariant fwFile == FirstOf(positionals[..k])
    {
      if fwFile.None? {
        fwFile := Some(positionals[k]);
      }
      k := k + 1;
    }
    assert positionals[..k] == positionals;
  }

  /** One more event taken by the option loop. */
  lemma FoldStep(f: Flags, es: seq<OptEvent>, i: nat)
    requires i < |es| && Fold(f, es[..i]).Continue?
    ensures Fold(f, es[..i + 1]) == Apply(Fold(f, es[..i]).flags, es[i])
  {
    assert es[..i + 1][..i] == es[..i];
  }

  /** A help option reached by the loop ends it, whatever follows. */
  lemma HelpAt(f: Flags, es: seq<OptEvent>, i: nat)
    requires i < |es| && Fold(f, es[..i]).Continue? && IsHelpEvent(es[i])
    ensures Fold(f, es).Help?
  {
    FoldStep(f, es, i);
    ApplyHelp(Fold(f, es[..i]).flags, es[i]);
    HelpStopsParsing(f, es[..i + 1], es[i + 1..]);
    assert es[..i + 1] + es[i + 1..] == es;
  }

  /** The `for(;;)` loop of `main` over `getopt_long`'s results, then the positional loop. */
  method ParseOptions(events: seq<OptEvent>, positionals: seq<string>) returns (r: ParseResult)
    ensures r == ParseSpec(events, positionals)
    ensures r.Parsed? ==> Consistent(r.flags) && r.flags.parsed == CountParsed(events)
    ensures r.Parsed? ==> (r.fwFile.Some? <==> |positionals| > 0)
  {
    var all, list, versions, lessVerbose, devOnly := false, false, false, false, false;
    var devType := ByUid;
    var devUid, devSn, devUsbPid: Option<string> := None, None, None;
    var parsed: nat := 0;
    var i := 0;
    while i < |events|
      invariant 0 <= i <= |events|
      invariant Fold(Initial, events[..i]) ==
        Continue(Flags(all, list, versions, lessVerbose, devOnly, devType, devUid, devSn, devUsbPid, parsed))
    {
      FoldStep(Initial, events, i);
      var e := events[i];
      ghost var next := Apply(Flags(all, list, versions, lessVerbose, devOnly, devType, devUid, devSn, devUsbPid, parsed), e);
      match e.opt {
      case 'a' =>
        all, devOnly, parsed := true, false, parsed + 1;
      case 'l' =>
        list, parsed := true, parsed + 1;
      case 'e' =>
        lessVerbose := true;
      case 'v' =>
        versions, parsed := true, parsed + 1;
      case 'd' =>
        if e.arg.Some? {
          devUid, all, devOnly, devType, parsed := e.arg, false, true, ByUid, parsed + 1;
        }
      case 's' =>
        if e.arg.Some? {
          devSn, all, devOnly, devType, parsed := e.arg, false, true, BySn, parsed + 1;
        }
      case 'p' =>
        if e.arg.Some? {
          devUsbPid, all, devOnly, devType, parsed := e.arg, false, true, ByPid, parsed + 1;
        }
      case _ =>
        HelpAt(Initial, events, i);
        return ShowHelp;
      }
      assert next == Continue(Flags(all, list, versions, lessVerbose, devOnly, devType, devUid, devSn, devUsbPid, parsed));
      i := i + 1;
    }
    assert events[..i] == events;
    var flags := Flags(all, list, versions, lessVerbose, devOnly, devType, devUid, devSn, devUsbPid, parsed);

    var fwFile := FirstPositional(positionals);
    r := Parsed(flags, fwFile);
    FoldKeepsConsistent(Initial, events);
    FoldCounts(Initial, events);
  }

  /** Where `main` goes after parsing (src/main.cpp:367-418, and the selection after). */
  datatype Action = ExitHelp | ExitVersions | ExitUsage | ExitNoDevice | ExitList | Select(flags: Flags, fwFile: Option<string>)

  /**
   `devCount` is the SDK's device count; it is only asked for once the version
   and usage checks have passed, which a value parameter cannot show.
   */
  function Decide(r: ParseResult, devCount: nat): (a: Action)
    ensures r.ShowHelp? <==> a == ExitHelp
    ensures a == ExitVersions <==> r.Parsed? && r.flags.versions
    ensures a == ExitUsage <==> r.Parsed? && !r.flags.versions && r.flags.parsed == 0
    ensures a == ExitNoDevice <==> r.Parsed? && !r.flags.versions && r.flags.parsed > 0 && devCount == 0
    ensures a == ExitList <==> r.Parsed? && !r.flags.versions && r.flags.parsed > 0 && devCount > 0 && r.flags.list
    ensures a.Select? ==> r == Parsed(a.flags, a.fwFile)
  {
    match r
    case ShowHelp => ExitHelp
    case Parsed(f, fw) =>
      if f.versions then ExitVersions
      else if f.parsed == 0 then ExitUsage
      else if devCount == 0 then ExitNoDevice
      else if f.list then ExitList
      else Select(f, fw)
  }

  /** Every early exit of `main` returns 0. */
  function ExitCode(a: Action): int
    requires !a.Select?
  {
    0
  }

  /** `-v` wins over everything after it is parsed, whatever the count, the devices or `-l`. */
  lemma VersionsFirst(es: seq<OptEvent>, ps: seq<string>, devCount: nat)
    requires Fold(Initial, es).Continue? && Fold(Initial, es).flags.versions
    ensures Decide(ParseSpec(es, ps), devCount) == ExitVersions
  {
  }

  /**
   With no counted option and no help option, the usage text is shown and
   `main` returns 0, whatever the positional arguments and the devices.
   */
  lemma NothingParsedShowsUsage(es: seq<OptEvent>, ps: seq<string>, devCount: nat)
    requires CountParsed(es) == 0
    requires forall i :: 0 <= i < |es| ==> !IsHelpEvent(es[i])
    ensures Decide(ParseSpec(es, ps), devCount) == ExitUsage
  {
    HelpIff(Initial, es);
    FoldCounts(Initial, es);
    VersionsCounted(Initial, es);
  }

  /** One option: `versions` is only ever set together with a count. */
  lemma ApplyVersions(g: Flags, e: OptEvent)
    requires g.versions ==> g.parsed > 0
    ensures Apply(g, e).Continue? && Apply(g, e).flags.versions ==> Apply(g, e).flags.parsed > 0
  {
    match e.opt
    case 'a' =>
    case 'l' =>
    case 'e' =>
    case 'v' =>
    case 'd' =>
    case 's' =>
    case 'p' =>
    case _ =>
  }

  /** `-v` increments the counter, so a set `versions` flag means a nonzero count. */
  lemma {:induction false} VersionsCounted(f: Flags, es: seq<OptEvent>)
    requires f.versions ==> f.parsed > 0
    ensures Fold(f, es).Continue? && Fold(f, es).flags.versions ==> Fold(f, es).flags.parsed > 0
    decreases |es|
  {
    if es != [] {
      var init := es[..|es| - 1];
      VersionsCounted(f, init);
      match Fold(f, init)
      case Help =>
      case Continue(g) => ApplyVersions(g, es[|es| - 1]);
    }
  }

  /** The selection is reached only with devices present and neither `-v` nor `-l` given. */
  lemma SelectOnlyWhen(r: ParseResult, devCount: nat)
    ensures Decide(r, devCount).Select? <==>
      r.Parsed? && !r.flags.versions && r.flags.parsed > 0 && devCount > 0 && !r.flags.list
  {
  }

  /** `-a -d X` leaves uid-only selection of X; `-d X -a` leaves all-devices selection. */
  lemma LastWinsExample(x: string)
    ensures Fold(Initial, [OptEvent('a', None), OptEvent('d', Some(x))]) == Continue(Initial.(devUid := Some(x), devOnly := true, parsed := 2))
    ensures Fold(Initial, [OptEvent('d', Some(x)), OptEvent('a', None)]) == Continue(Initial.(devUid := Some(x), all := true, parsed := 2))
  {
    var es1 := [OptEvent('a', None), OptEvent('d', Some(x))];
    var es2 := [OptEvent('d', Some(x)), OptEvent('a', None)];
    assert es1[..1] == [OptEvent('a', None)] && es1[..1][..0] == [];
    assert Fold(Initial, es1[..1]) == Continue(Initial.(all := true, parsed := 1));
    assert es2[..1] == [OptEvent('d', Some(x))] && es2[..1][..0] == [];
    assert Fold(Initial, es2[..1]) == Continue(Initial.(devUid := Some(x), devOnly := true, parsed := 1));
  }
}
