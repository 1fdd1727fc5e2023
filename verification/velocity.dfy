/** The orchestration loop (cmd/velocity/main.go): the resource-mode state
    machine driven by the QoS tick, the memory-trim pass, and the
    interleaving of loop events with focus events handled by the watcher.
    Timers, the tray menu and logging are not modelled; every OS answer is
    an input of the event that needs it. */
module Velocity {
  import opened Base
  import ProcessTree
  import Focus
  import Governor
  import Bouncer

  /** Above this many megabytes a focused tree is not given Performance. */
  const MAX_MEMORY_MB: nat := 2048

  datatype Mode = Unknown | Focused | Background

  /** One `EnforceEfficiencyMode` or `EnforcePerformanceMode` call. */
  datatype GovernorCall = GovernorCall(pid: Pid, mode: Governor.PowerMode)

  /** The loop's `lastState` together with the shared focus watcher (nil
      until the tray is ready). */
  datatype AppState = AppState(mode: Mode, watcher: Option<Bouncer.Watcher>)

  datatype TickResult = TickResult(state: AppState, calls: seq<GovernorCall>)

  /** The state `backgroundLoop` starts from. */
  function Start(watcher: Option<Bouncer.Watcher>): (s: AppState)
    ensures s.mode == Unknown && s.watcher == watcher
  {
    AppState(Unknown, watcher)
  }

  /** `applyEfficiencyMode` / `applyPerformanceMode`: one governor call per
      pid, in order; per-pid failures do not stop the batch. */
  function ApplyMode(pids: seq<Pid>, mode: Governor.PowerMode): (calls: seq<GovernorCall>)
    ensures |calls| == |pids|
    ensures forall i :: 0 <= i < |pids| ==> calls[i].pid == pids[i] && calls[i].mode == mode
  {
    if |pids| == 0 then []
    else ApplyMode(pids[..|pids| - 1], mode) + [GovernorCall(pids[|pids| - 1], mode)]
  }

  /** The classification of a tick: focused when the foreground window is
      owned by one of the tree's pids. */
  function Classify(pids: seq<Pid>, fg: Focus.Foreground): (m: Mode)
    ensures m == Focused <==> Focus.IsAnyProcessFocused(pids, fg)
    ensures m != Unknown
  {
    if Focus.IsAnyProcessFocused(pids, fg) then Focused else Background
  }

  /** The calls made on entering `target`. */
  function Transition(pids: seq<Pid>, target: Mode, probe: Pid -> Governor.MemoryProbe): (calls: seq<GovernorCall>)
    // Entering Focused switches the tree exactly when it is under the memory ceiling.
    ensures target == Focused ==>
              (calls == [] <==> |pids| == 0 || Governor.GetTotalMemoryUsageMB(pids, probe) >= MAX_MEMORY_MB)
    // A switch calls the governor once per pid, in the tree's order.
    ensures calls != [] ==> |calls| == |pids| && forall i :: 0 <= i < |pids| ==> calls[i].pid == pids[i]
    ensures target == Unknown ==> calls == []
    // Either the whole tree is switched or none of it.
    ensures calls == [] || |calls| == |pids|
    ensures target == Background ==> |calls| == |pids|
    ensures forall c :: c in calls ==> c.pid in pids && (c.mode == Governor.Performance <==> target == Focused)
  {
    match target
    case Focused =>
      if Governor.GetTotalMemoryUsageMB(pids, probe) < MAX_MEMORY_MB then ApplyMode(pids, Governor.Performance)
      else []
    case Background => ApplyMode(pids, Governor.Efficiency)
    case Unknown => []
  }

  /** One QoS tick. `resolution` is what `FindProcessTree("WhatsApp.Root.exe")`
      returned, `fg` the foreground window, `probe` the working-set reads. */
  function QosTick(s: AppState, resolution: Result<seq<Pid>, ProcessTree.ProcError>,
                   fg: Focus.Foreground, probe: Pid -> Governor.MemoryProbe): (r: TickResult)
    // Failure: back to Unknown, nothing applied, membership left as it was.
    ensures resolution.Err? ==> r.state == AppState(Unknown, s.watcher) && r.calls == []
    // Success: the watcher tracks exactly the new tree; the mode is the classification.
    ensures resolution.Ok? ==>
              && r.state.mode == Classify(resolution.value, fg)
              && r.state.watcher.Some? == s.watcher.Some?
              && (s.watcher.Some? ==>
                    && r.state.watcher.value.lastGoodWindow == s.watcher.value.lastGoodWindow
                    && forall p :: p in r.state.watcher.value.tracked <==> p in resolution.value)
    // No reclassification, no governor call.
    ensures resolution.Ok? && r.state.mode == s.mode ==> r.calls == []
    // Only pids of the new tree are touched.
    ensures forall c :: c in r.calls ==> resolution.Ok? && c.pid in resolution.value
    // Entering Background throttles every pid.
    ensures resolution.Ok? && s.mode != Background && r.state.mode == Background ==>
              r.calls == ApplyMode(resolution.value, Governor.Efficiency)
    // Entering Focused restores Performance only under the memory ceiling.
    ensures resolution.Ok? && s.mode != Focused && r.state.mode == Focused ==>
              r.calls == (if Governor.GetTotalMemoryUsageMB(resolution.value, probe) < MAX_MEMORY_MB
                          then ApplyMode(resolution.value, Governor.Performance) else [])
  {
    match resolution
    case Err(_) => TickResult(s.(mode := Unknown), [])
    case Ok(pids) =>
      var watcher := if s.watcher.Some? then Some(Bouncer.UpdatePIDs(s.watcher.value, pids)) else None;
      var current := Classify(pids, fg);
      if current == s.mode then TickResult(AppState(current, watcher), [])
      else TickResult(AppState(current, watcher), Transition(pids, current, probe))
  }

  /** The same tick twice in a row does nothing the second time. */
  lemma RepeatedTickIsQuiet(s: AppState, resolution: Result<seq<Pid>, ProcessTree.ProcError>,
                            fg: Focus.Foreground, probe: Pid -> Governor.MemoryProbe)
    ensures QosTick(QosTick(s, resolution, fg, probe).state, resolution, fg, probe).calls == []
  {
  }

  /** A focused tree over the memory ceiling stays as it was (throttled, if
      it was in the background) and records Focused, so a later focused
      tick under the ceiling still restores nothing until the tree has been
      in the background or Unknown in between. */
  lemma HighMemoryFocusSticks(w: Option<Bouncer.Watcher>, pids: seq<Pid>, fg: Focus.Foreground,
                              heavy: Pid -> Governor.MemoryProbe, light: Pid -> Governor.MemoryProbe)
    requires Focus.IsAnyProcessFocused(pids, fg)
    requires Governor.GetTotalMemoryUsageMB(pids, heavy) >= MAX_MEMORY_MB
    ensures var first := QosTick(AppState(Background, w), Ok(pids), fg, heavy);
            && first.calls == [] && first.state.mode == Focused
            && QosTick(first.state, Ok(pids), fg, light).calls == []
  {
  }

  /** After a failed resolution the next successful tick always acts: the
      tree is given the mode of its classification again. */
  lemma RecoveryReapplies(s: AppState, err: ProcessTree.ProcError, pids: seq<Pid>,
                          fg: Focus.Foreground, probe: Pid -> Governor.MemoryProbe)
    requires !Focus.IsAnyProcessFocused(pids, fg)
    ensures var after := QosTick(s, Err(err), fg, probe).state;
            QosTick(after, Ok(pids), fg, probe).calls == ApplyMode(pids, Governor.Efficiency)
  {
  }

  /** Two trees with the same pids get the same calls, as a set. */
  lemma {:induction false} ApplyModeElems(pids: seq<Pid>, mode: Governor.PowerMode)
    ensures forall c :: c in ApplyMode(pids, mode) <==> c.pid in pids && c.mode == mode
  {
    var calls := ApplyMode(pids, mode);
    forall c: GovernorCall | c.pid in pids && c.mode == mode ensures c in calls {
      var i :| 0 <= i < |pids| && pids[i] == c.pid;
      assert calls[i] == c;
    }
  }

  /** The end-to-end scenario: the tree 100 -> 101 -> 102 in the background;
      a foreground window owned by the unrelated pid 999 changes nothing;
      then pid 101 takes the focus with 500 MB in use, and Performance is
      applied to exactly the three pids. */
  lemma EndToEndScenario(pids: seq<Pid>, w: Bouncer.Watcher, other: Hwnd, mine: Hwnd,
                         probe: Pid -> Governor.MemoryProbe)
    requires ProcessTree.IsTreeWalk(map[100 := ProcessTree.ProcInfo(0, "Root.exe"),
                                        101 := ProcessTree.ProcInfo(100, "child.exe"),
                                        102 := ProcessTree.ProcInfo(101, "grandchild.exe")], 100, pids)
    requires other != 0 && mine != 0
    requires Governor.GetTotalMemoryUsageMB(pids, probe) == 500
    ensures var tick1 := QosTick(AppState(Background, Some(w)), Ok(pids), Focus.Foreground(other, 999), probe);
            && tick1.state.mode == Background && tick1.calls == []
            && var tick2 := QosTick(tick1.state, Ok(pids), Focus.Foreground(mine, 101), probe);
            && tick2.state.mode == Focused
            && (forall c :: c in tick2.calls ==> c.mode == Governor.Performance && c.pid in {100, 101, 102})
            && GovernorCall(100, Governor.Performance) in tick2.calls
            && GovernorCall(101, Governor.Performance) in tick2.calls
            && GovernorCall(102, Governor.Performance) in tick2.calls
  {
    ProcessTree.ChainResolvesToAllThree(pids);
    assert 999 !in Elems(pids);
    assert 101 in Elems(pids);
    ApplyModeElems(pids, Governor.Performance);
    var tick2 := QosTick(QosTick(AppState(Background, Some(w)), Ok(pids), Focus.Foreground(other, 999), probe).state,
                         Ok(pids), Focus.Foreground(mine, 101), probe);
    assert tick2.calls == ApplyMode(pids, Governor.Performance);
    assert 100 in pids && 102 in pids;
  }

  // ---------------------------------------------------------------------
  // Memory trimming

  datatype TrimReport =
    | NotRunning
    | LookupFailed
    | Trimmed(trimmed: nat, total: nat)

  /** Reference count: the pids whose trim succeeded. */
  function CountOk(pids: seq<Pid>, trimOk: Pid -> bool): (n: nat)
    ensures n <= |pids|
  {
    if |pids| == 0 then 0
    else CountOk(pids[..|pids| - 1], trimOk) + (if trimOk(pids[|pids| - 1]) then 1 else 0)
  }

  /** What one trim pass reports: nothing is trimmed without a tree, and
      otherwise some of its pids are. */
  function TrimPass(resolution: Result<seq<Pid>, ProcessTree.ProcError>, trimOk: Pid -> bool): (report: TrimReport)
    ensures report.Trimmed? <==> resolution.Ok?
    ensures report.Trimmed? ==> report.trimmed <= report.total == |resolution.value|
  {
    match resolution
    case Err(e) => if e == ProcessTree.NotFound then NotRunning else LookupFailed
    case Ok(pids) => Trimmed(CountOk(pids, trimOk), |pids|)
  }

  /** `trimWhatsApp`: resolve the tree, try to trim every pid, and report
      how many trims succeeded out of how many pids. `trimOk` says whether
      `TrimProcess` succeeds for a pid. */
  method TrimWhatsApp(resolution: Result<seq<Pid>, ProcessTree.ProcError>, trimOk: Pid -> bool)
    returns (report: TrimReport)
    ensures resolution == Err(ProcessTree.NotFound) ==> report == NotRunning
    ensures resolution == Err(ProcessTree.EnumerationFailed) ==> report == LookupFailed
    ensures resolution.Ok? ==> report == Trimmed(CountOk(resolution.value, trimOk), |resolution.value|)
    ensures report.Trimmed? ==> report.trimmed <= report.total
    ensures report == TrimPass(resolution, trimOk)
  {
    if resolution.Err? {
      return if resolution.error == ProcessTree.NotFound then NotRunning else LookupFailed;
    }
    var pids := resolution.value;
    var trimmed := 0;
    var i := 0;
    while i < |pids|
      invariant 0 <= i <= |pids|
      invariant trimmed == CountOk(pids[..i], trimOk)
      invariant trimmed <= i
    {
      assert pids[..i + 1][..i] == pids[..i];
      if trimOk(pids[i]) {
        trimmed := trimmed + 1;
      }
      i := i + 1;
    }
    assert pids[..|pids|] == pids;
    return Trimmed(trimmed, |pids|);
  }

  /** Every pid is trimmed when every trim succeeds, none when all fail. */
  lemma {:induction false} CountOkExtremes(pids: seq<Pid>, trimOk: Pid -> bool)
    ensures (forall i :: 0 <= i < |pids| ==> trimOk(pids[i])) ==> CountOk(pids, trimOk) == |pids|
    ensures (forall i :: 0 <= i < |pids| ==> !trimOk(pids[i])) ==> CountOk(pids, trimOk) == 0
  {
    if |pids| > 0 {
      CountOkExtremes(pids[..|pids| - 1], trimOk);
    }
  }

  // ---------------------------------------------------------------------
  // The loop and the watcher together

  /** The events the program reacts to, in the order they are handled: the
      loop's trim timer and forced trims, its QoS tick, and foreground
      changes delivered to the watcher's callback. */
  datatype Event =
    | TrimTick(resolution: Result<seq<Pid>, ProcessTree.ProcError>, trimOk: Pid -> bool)
    | QosTickEvent(resolution: Result<seq<Pid>, ProcessTree.ProcError>, fg: Focus.Foreground,
                   probe: Pid -> Governor.MemoryProbe)
    | ForegroundChange(ev: Bouncer.FocusEvent)

  /** What the program has done so far: the loop's state, every governor
      call, every callback decision and every trim pass's report. */
  datatype Trace = Trace(state: AppState, calls: seq<GovernorCall>, decisions: seq<Bouncer.Decision>,
                         trims: seq<TrimReport>)

  /** `backgroundLoop` up to its first `select`: the mode is Unknown and one
      trim pass has run. */
  function Launch(watcher: Option<Bouncer.Watcher>, resolution: Result<seq<Pid>, ProcessTree.ProcError>,
                  trimOk: Pid -> bool): (t: Trace)
    ensures t.state.mode == Unknown && t.state.watcher == watcher
    // Nothing has been switched or judged yet, and exactly one trim pass ran.
    ensures t.calls == [] && t.decisions == [] && |t.trims| == 1
    ensures t.trims[0].Trimmed? <==> resolution.Ok?
  {
    Trace(Start(watcher), [], [], [TrimPass(resolution, trimOk)])
  }

  /** One event: a trim tick runs a trim pass, a QoS tick may call the
      governor, and a foreground change goes to the watcher's callback. */
  function Step(t: Trace, e: Event): (r: Trace)
    ensures |t.calls| <= |r.calls| && r.calls[..|t.calls|] == t.calls
    ensures !e.QosTickEvent? ==> r.state.mode == t.state.mode && r.calls == t.calls
    ensures r.state.watcher.Some? == t.state.watcher.Some?
    ensures e.TrimTick? ==> r.state == t.state && r.decisions == t.decisions
                            && r.trims == t.trims + [TrimPass(e.resolution, e.trimOk)]
    ensures e.QosTickEvent? ==> r.decisions == t.decisions && r.trims == t.trims
    ensures e.ForegroundChange? ==> r.trims == t.trims && |r.decisions| == |t.decisions| + 1
    ensures |t.decisions| <= |r.decisions| && r.decisions[..|t.decisions|] == t.decisions
    ensures |t.trims| <= |r.trims| && r.trims[..|t.trims|] == t.trims
  {
    match e
    case TrimTick(res, trimOk) => t.(trims := t.trims + [TrimPass(res, trimOk)])
    case QosTickEvent(res, fg, probe) =>
      var r := QosTick(t.state, res, fg, probe);
      t.(state := r.state, calls := t.calls + r.calls)
    case ForegroundChange(ev) =>
      var out := Bouncer.WinEventProc(t.state.watcher, ev);
      t.(state := t.state.(watcher := out.watcher), decisions := t.decisions + [out.decision])
  }

  /** A QoS tick publishes the tree to the watcher, so the callback then
      trusts a window outside the tree and reverts a tracked window that
      passes no filter back to that trusted window. */
  lemma PublishedTreeGuardsFocus(t: Trace, pids: seq<Pid>, fg: Focus.Foreground,
                                 probe: Pid -> Governor.MemoryProbe,
                                 other: Bouncer.FocusEvent, steal: Bouncer.FocusEvent)
    requires t.state.watcher.Some?
    requires other.hwnd != 0 && other.ownerPid !in pids
    requires steal.hwnd != 0 && steal.ownerPid in pids && !Bouncer.PassesFilters(steal)
    ensures Step(Step(Step(t, QosTickEvent(Ok(pids), fg, probe)), ForegroundChange(other)),
                 ForegroundChange(steal)).decisions
            == t.decisions + [Bouncer.Trust(other.hwnd), Bouncer.Revert(other.hwnd, steal.hwnd)]
  {
  }

  /** The loop's first two ticks after launch: with another window in front
      the whole tree is throttled, then once a tree window takes the front
      the whole tree is restored, in tree order. */
  lemma LoopScenarioCalls(w: Option<Bouncer.Watcher>, pids: seq<Pid>, trimOk: Pid -> bool,
                          other: Hwnd, mine: Hwnd, probe: Pid -> Governor.MemoryProbe)
    requires mine != 0 && 999 !in pids && 101 in pids
    requires Governor.GetTotalMemoryUsageMB(pids, probe) == 500
    ensures Step(Step(Launch(w, Ok(pids), trimOk), QosTickEvent(Ok(pids), Focus.Foreground(other, 999), probe)),
                 QosTickEvent(Ok(pids), Focus.Foreground(mine, 101), probe)).calls
            == ApplyMode(pids, Governor.Efficiency) + ApplyMode(pids, Governor.Performance)
  {
  }

  /** The reports of the trim passes that `events` trigger, in order. */
  function TrimReports(events: seq<Event>): seq<TrimReport>
  {
    if |events| == 0 then []
    else
      var e := events[|events| - 1];
      TrimReports(events[..|events| - 1]) + (if e.TrimTick? then [TrimPass(e.resolution, e.trimOk)] else [])
  }

  /** A run of events only ever appends to the record, and a watcher never
      appears or disappears. */
  function Run(t: Trace, events: seq<Event>): (r: Trace)
    ensures |t.decisions| <= |r.decisions| && r.decisions[..|t.decisions|] == t.decisions
    ensures |t.trims| <= |r.trims| && r.trims[..|t.trims|] == t.trims
    ensures r.state.watcher.Some? == t.state.watcher.Some?
  {
    if |events| == 0 then t else Step(Run(t, events[..|events| - 1]), events[|events| - 1])
  }

  /** Governor calls are only ever appended. */
  lemma {:induction false} RunExtendsCalls(t: Trace, events: seq<Event>)
    ensures |t.calls| <= |Run(t, events).calls|
    ensures Run(t, events).calls[..|t.calls|] == t.calls
  {
    if |events| > 0 {
      RunExtendsCalls(t, events[..|events| - 1]);
    }
  }

  /** Trims and foreground changes never change the mode nor issue governor
      calls. */
  lemma {:induction false} QuietWithoutQosTicks(t: Trace, events: seq<Event>)
    requires forall i :: 0 <= i < |events| ==> !events[i].QosTickEvent?
    ensures Run(t, events).state.mode == t.state.mode
    ensures Run(t, events).calls == t.calls
  {
    if |events| > 0 {
      QuietWithoutQosTicks(t, events[..|events| - 1]);
    }
  }

  /** After any events, the mode is the one set by the last QoS tick. */
  lemma ModeFollowsLastQosTick(t: Trace, events: seq<Event>, i: nat)
    requires i < |events| && events[i].QosTickEvent?
    requires forall j :: i < j < |events| ==> !events[j].QosTickEvent?
    ensures Run(t, events).state.mode
            == QosTick(Run(t, events[..i]).state, events[i].resolution, events[i].fg, events[i].probe).state.mode
  {
    RunSplitAt(t, events, i);
    var mid := Step(Run(t, events[..i]), events[i]);
    var rest := events[i + 1..];
    forall j | 0 <= j < |rest| ensures !rest[j].QosTickEvent? {
      assert rest[j] == events[i + 1 + j];
    }
    QuietWithoutQosTicks(mid, rest);
  }

  /** A run splits around any one of its events. */
  lemma RunSplitAt(t: Trace, events: seq<Event>, i: nat)
    requires i < |events|
    ensures Run(t, events) == Run(Step(Run(t, events[..i]), events[i]), events[i + 1..])
  {
    var upto := events[..i + 1];
    assert upto + events[i + 1..] == events;
    RunAppend(t, upto, events[i + 1..]);
    assert upto[..i] == events[..i];
  }

  /** Running two batches of events is running their concatenation. */
  lemma {:induction false} RunAppend(t: Trace, a: seq<Event>, b: seq<Event>)
    ensures Run(t, a + b) == Run(Run(t, a), b)
    decreases |b|
  {
    if |b| == 0 {
      assert a + b == a;
    } else {
      var init := b[..|b| - 1];
      var last := b[|b| - 1];
      assert b == init + [last];
      assert a + b == (a + init) + [last];
      RunSnoc(t, a + init, last);
      RunSnoc(Run(t, a), init, last);
      RunAppend(t, a, init);
    }
  }

  /** One more event is one more step. */
  lemma RunSnoc(t: Trace, events: seq<Event>, e: Event)
    ensures Run(t, events + [e]) == Step(Run(t, events), e)
  {
    var s := events + [e];
    assert s[..|s| - 1] == events;
    assert s[|s| - 1] == e;
  }

  /** Exactly the trim ticks run trim passes, one each, in order. */
  lemma {:induction false} TrimsFollowTrimTicks(t: Trace, events: seq<Event>)
    ensures Run(t, events).trims == t.trims + TrimReports(events)
  {
    if |events| > 0 {
      TrimsFollowTrimTicks(t, events[..|events| - 1]);
    }
  }

  /** The loop trims once before it handles any event: the first report is
      the initial pass, followed by one report per trim tick. */
  lemma InitialTrimComesFirst(watcher: Option<Bouncer.Watcher>, resolution: Result<seq<Pid>, ProcessTree.ProcError>,
                              trimOk: Pid -> bool, events: seq<Event>)
    ensures Run(Launch(watcher, resolution, trimOk), events).trims
            == [TrimPass(resolution, trimOk)] + TrimReports(events)
    ensures Run(Launch(watcher, resolution, trimOk), events).trims[0] == TrimPass(resolution, trimOk)
  {
    TrimsFollowTrimTicks(Launch(watcher, resolution, trimOk), events);
  }
}
