/** The focus-steal "bouncer" (internal/watcher/bouncer.go). Each foreground
    change is judged by `WinEventProc`: a window of an untracked process
    becomes the last trusted window; a tracked (WhatsApp) window is let
    through by one of three safety filters or else focus is handed back to
    the last trusted window. Every OS read the callback makes is a field of
    the event. */
module Bouncer {
  import opened Base
  import opened Text

  /** The mutable part of the source's `Watcher`: the tracked pids and the
      last window that did not belong to one of them. */
  datatype Watcher = Watcher(tracked: set<Pid>, lastGoodWindow: Hwnd)

  /** `NewWatcher`: nothing tracked, no trusted window yet. */
  function NewWatcher(): (w: Watcher)
    ensures forall p: Pid :: p !in w.tracked
    ensures w.lastGoodWindow == 0
  {
    Watcher({}, 0)
  }

  /** The set the source's loop builds from `pids`. */
  function TrackedSet(pids: seq<Pid>): (s: set<Pid>)
    ensures forall p :: p in s <==> p in pids
  {
    if |pids| == 0 then {}
    else TrackedSet(pids[..|pids| - 1]) + {pids[|pids| - 1]}
  }

  /** `UpdatePIDs`: the tracked set is replaced, not extended, by `pids`; the
      last trusted window is kept. */
  function UpdatePIDs(w: Watcher, pids: seq<Pid>): (r: Watcher)
    ensures forall p :: p in r.tracked <==> p in pids
    ensures r.lastGoodWindow == w.lastGoodWindow
  {
    w.(tracked := TrackedSet(pids))
  }

  /** Only the most recent update matters. */
  lemma LastUpdateWins(w: Watcher, a: seq<Pid>, b: seq<Pid>)
    ensures UpdatePIDs(UpdatePIDs(w, a), b) == UpdatePIDs(w, b)
  {
  }

  /** The order and repetition of the pids do not matter. */
  lemma UpdateIgnoresOrder(w: Watcher, a: seq<Pid>, b: seq<Pid>)
    requires Elems(a) == Elems(b)
    ensures UpdatePIDs(w, a) == UpdatePIDs(w, b)
  {
    var ra := UpdatePIDs(w, a);
    var rb := UpdatePIDs(w, b);
    assert forall p :: p in ra.tracked <==> p in Elems(a);
    assert forall p :: p in rb.tracked <==> p in Elems(b);
    assert ra.tracked == rb.tracked;
  }

  // ---------------------------------------------------------------------
  // The three safety filters

  /** Win32 POINT and RECT: 32-bit signed screen coordinates. */
  datatype Point = Point(x: i32, y: i32)
  datatype Rect = Rect(left: i32, top: i32, right: i32, bottom: i32)

  /** `isMouseInsideWindow`: the cursor lies in the window rectangle, edges
      included. */
  function IsMouseInsideWindow(cursor: Point, rect: Rect): (inside: bool)
    // An inverted rectangle contains nothing.
    ensures inside ==> rect.left <= rect.right && rect.top <= rect.bottom
    // A failed GetWindowRect leaves all zeros: only the screen origin is inside.
    ensures rect == Rect(0, 0, 0, 0) ==> (inside <==> cursor == Point(0, 0))
  {
    rect.left <= cursor.x <= rect.right && rect.top <= cursor.y <= rect.bottom
  }

  /** The four corners of a non-empty rectangle count as inside. */
  lemma CornersAreInside(rect: Rect)
    requires rect.left <= rect.right && rect.top <= rect.bottom
    ensures IsMouseInsideWindow(Point(rect.left, rect.top), rect)
    ensures IsMouseInsideWindow(Point(rect.right, rect.bottom), rect)
    ensures IsMouseInsideWindow(Point(rect.left, rect.bottom), rect)
    ensures IsMouseInsideWindow(Point(rect.right, rect.top), rect)
  {
  }

  /** A point one pixel beyond any edge is outside. */
  lemma JustOutsideIsOutside(cursor: Point, rect: Rect)
    requires cursor.x == rect.right + 1 || cursor.x == rect.left - 1
             || cursor.y == rect.bottom + 1 || cursor.y == rect.top - 1
    ensures !IsMouseInsideWindow(cursor, rect)
  {
  }

  /** `isAltPressed`: `keyState` is what GetAsyncKeyState returned for the
      Alt key (virtual-key code 0x12); its most significant bit says the key
      is down now. */
  function IsAltPressed(keyState: bv16): (down: bool)
    ensures down <==> keyState >= 0x8000
  {
    keyState & 0x8000 != 0
  }

  /** The low-order "pressed since the last poll" bit plays no part. */
  lemma AltIgnoresLowBit(keyState: bv16)
    ensures IsAltPressed(keyState) == IsAltPressed(keyState ^ 1)
  {
    assert (keyState ^ 1) & 0x8000 == keyState & 0x8000;
  }

  /** `windows.UTF16ToString`: the text up to the first NUL. */
  function CutAtNul(s: string): (r: string)
    ensures r <= s
    ensures '\0' !in r
    ensures r == s || s[|r|] == '\0'
  {
    if '\0' in s then s[..IndexOf(s, '\0')] else s
  }

  /** `getWindowTitle`: the empty string when the reported length is 0;
      otherwise what GetWindowTextW copies into a buffer of `length + 1`
      characters (`text` is the window's text at that moment), cut at the
      first NUL. */
  function WindowTitle(length: u64, text: string): (title: string)
    ensures length == 0 ==> title == ""
    ensures |title| <= length
    ensures title <= text
    ensures '\0' !in title
    ensures length as int <= |text| && '\0' !in text[..length] ==> title == text[..length]
    // When the text is shorter than reported, whatever there is gets copied.
    ensures length > 0 ==>
              var n := if length as int <= |text| then length as int else |text|;
              title <= text[..n] && (title == text[..n] || text[|title|] == '\0')
  {
    if length == 0 then ""
    else
      var copied := if length as int <= |text| then text[..length] else text;
      CutAtNul(copied)
  }

  /** Safety filter 1: the lower-cased title mentions a call or a video. */
  function TitleSignalsCall(title: string): (signals: bool)
    ensures signals <==> ContainsFold(title, "call") || ContainsFold(title, "video")
    ensures signals ==> |title| >= 4
    // A title that already spells the word in lower case is recognised.
    ensures Contains(title, "call") || Contains(title, "video") ==> signals
  {
    LowerKeepsContains(title, "call");
    LowerKeepsContains(title, "video");
    LowerContainsIffFold(title, "call");
    LowerContainsIffFold(title, "video");
    Contains(Lower(title), "call") || Contains(Lower(title), "video")
  }

  lemma LowerIdempotent(s: string)
    ensures Lower(Lower(s)) == Lower(s)
  {
  }

  /** The title test does not depend on letter case. */
  lemma TitleFilterIgnoresCase(title: string)
    ensures TitleSignalsCall(Lower(title)) == TitleSignalsCall(title)
  {
    LowerIdempotent(title);
  }

  /** A Voice or Video call window is recognised whatever its case. */
  lemma CallTitlesRecognised()
    ensures TitleSignalsCall("Video call - Jane")
    ensures TitleSignalsCall("INCOMING CALL")
  {
    var a := Lower("Video call - Jane");
    assert a[0..5] == "video";
    assert OccursAt(a, "video", 0);
    var b := Lower("INCOMING CALL");
    assert b[9..13] == "call";
    assert OccursAt(b, "call", 9);
  }

  // ---------------------------------------------------------------------
  // The callback

  /** Everything `winEventProc` learns from the OS about one foreground
      change: the window, its owner (0 when the lookup wrote nothing), the
      two title reads, the Alt key state, the cursor and the window
      rectangle (all zero when a read fails). */
  datatype FocusEvent = FocusEvent(
    hwnd: Hwnd,
    ownerPid: Pid,
    titleLength: u64,
    titleText: string,
    altState: bv16,
    cursor: Point,
    rect: Rect)

  datatype AllowReason = CallOrVideo | AltTab | MouseClick

  /** What the callback does. `Trust`: remember the window as the last good
      one. `Revert`: SetForegroundWindow(revertTo) and flash the stealing
      window. `Unprotected`: a steal with no trusted window to return to. */
  datatype Decision =
    | Ignore
    | Trust(hwnd: Hwnd)
    | Allow(reason: AllowReason)
    | Revert(revertTo: Hwnd, flash: Hwnd)
    | Unprotected

  datatype Outcome = Outcome(decision: Decision, watcher: Option<Watcher>)

  /** The event's window belongs to a tracked process. */
  predicate IsTrackedEvent(w: Watcher, ev: FocusEvent)
  {
    ev.hwnd != 0 && ev.ownerPid in w.tracked
  }

  /** A tracked window passed one of the three safety filters. */
  function PassesFilters(ev: FocusEvent): (passes: bool)
    // Holding Alt always lets the window through.
    ensures IsAltPressed(ev.altState) ==> passes
    // With an empty title and Alt up, only the mouse position decides.
    ensures ev.titleLength == 0 && ev.altState < 0x8000 ==>
              (passes <==> IsMouseInsideWindow(ev.cursor, ev.rect))
  {
    || TitleSignalsCall(WindowTitle(ev.titleLength, ev.titleText))
    || IsAltPressed(ev.altState)
    || IsMouseInsideWindow(ev.cursor, ev.rect)
  }

  /** `winEventProc`, with the global watcher passed in and returned. */
  function WinEventProc(global: Option<Watcher>, ev: FocusEvent): (out: Outcome)
    ensures out.decision.Ignore? <==> global.None? || ev.hwnd == 0
    ensures out.decision.Trust? <==> global.Some? && ev.hwnd != 0 && ev.ownerPid !in global.value.tracked
    ensures out.decision.Trust? ==>
              out.decision.hwnd == ev.hwnd && out.watcher == Some(global.value.(lastGoodWindow := ev.hwnd))
    ensures !out.decision.Trust? ==> out.watcher == global
    ensures out.decision.Allow? <==> global.Some? && IsTrackedEvent(global.value, ev) && PassesFilters(ev)
    ensures out.decision.Revert? <==>
              && global.Some? && IsTrackedEvent(global.value, ev) && !PassesFilters(ev)
              && global.value.lastGoodWindow != 0
    ensures out.decision.Revert? ==>
              out.decision.revertTo == global.value.lastGoodWindow && out.decision.flash == ev.hwnd
    ensures out.decision.Unprotected? <==>
              && global.Some? && IsTrackedEvent(global.value, ev) && !PassesFilters(ev)
              && global.value.lastGoodWindow == 0
  {
    if global.None? || ev.hwnd == 0 then Outcome(Ignore, global)
    else
      var w := global.value;
      if ev.ownerPid !in w.tracked then
        Outcome(Trust(ev.hwnd), Some(w.(lastGoodWindow := ev.hwnd)))
      else if TitleSignalsCall(WindowTitle(ev.titleLength, ev.titleText)) then
        Outcome(Allow(CallOrVideo), global)
      else if IsAltPressed(ev.altState) then
        Outcome(Allow(AltTab), global)
      else if IsMouseInsideWindow(ev.cursor, ev.rect) then
        Outcome(Allow(MouseClick), global)
      else if w.lastGoodWindow != 0 then
        Outcome(Revert(w.lastGoodWindow, ev.hwnd), global)
      else
        Outcome(Unprotected, global)
  }

  /** The filters are tried in order: a call title wins whatever the Alt key
      and the mouse say, and Alt wins whatever the mouse says. */
  lemma FilterPrecedence(w: Watcher, ev: FocusEvent)
    requires IsTrackedEvent(w, ev)
    ensures TitleSignalsCall(WindowTitle(ev.titleLength, ev.titleText)) ==>
              WinEventProc(Some(w), ev).decision == Allow(CallOrVideo)
    ensures !TitleSignalsCall(WindowTitle(ev.titleLength, ev.titleText)) && IsAltPressed(ev.altState) ==>
              WinEventProc(Some(w), ev).decision == Allow(AltTab)
    ensures !TitleSignalsCall(WindowTitle(ev.titleLength, ev.titleText)) && !IsAltPressed(ev.altState)
              && IsMouseInsideWindow(ev.cursor, ev.rect) ==>
              WinEventProc(Some(w), ev).decision == Allow(MouseClick)
  {
  }

  /** Focus is never handed back to a null window, only to the trusted one. */
  lemma RevertTargetIsTrusted(w: Watcher, ev: FocusEvent)
    requires WinEventProc(Some(w), ev).decision.Revert?
    ensures WinEventProc(Some(w), ev).decision.revertTo != 0
    ensures WinEventProc(Some(w), ev).decision.revertTo == w.lastGoodWindow
  {
  }

  /** The callback delivered a sequence of foreground changes. */
  function Deliver(global: Option<Watcher>, evs: seq<FocusEvent>): Option<Watcher>
  {
    if |evs| == 0 then global
    else WinEventProc(Deliver(global, evs[..|evs| - 1]), evs[|evs| - 1]).watcher
  }

  /** An event that makes its window the trusted one. */
  predicate Untracked(tracked: set<Pid>, ev: FocusEvent)
  {
    ev.hwnd != 0 && ev.ownerPid !in tracked
  }

  /** Delivering two batches of events is delivering their concatenation. */
  lemma {:induction false} DeliverAppend(global: Option<Watcher>, a: seq<FocusEvent>, b: seq<FocusEvent>)
    ensures Deliver(global, a + b) == Deliver(Deliver(global, a), b)
    decreases |b|
  {
    if |b| == 0 {
      assert a + b == a;
    } else {
      assert (a + b)[..|a + b| - 1] == a + b[..|b| - 1];
      DeliverAppend(global, a, b[..|b| - 1]);
    }
  }

  /** Tracked windows and null windows never change the watcher. */
  lemma {:induction false} TrackedEventsChangeNothing(w: Watcher, evs: seq<FocusEvent>)
    requires forall i :: 0 <= i < |evs| ==> !Untracked(w.tracked, evs[i])
    ensures Deliver(Some(w), evs) == Some(w)
  {
    if |evs| > 0 {
      TrackedEventsChangeNothing(w, evs[..|evs| - 1]);
    }
  }

  /** The last trusted window is the window of the LAST untracked event: a
      tracked window never becomes a revert target, and the tracked set is
      left alone. */
  lemma LastGoodIsLastUntracked(w: Watcher, evs: seq<FocusEvent>, i: nat)
    requires i < |evs| && Untracked(w.tracked, evs[i])
    requires forall j :: i < j < |evs| ==> !Untracked(w.tracked, evs[j])
    ensures Deliver(Some(w), evs) == Some(w.(lastGoodWindow := evs[i].hwnd))
  {
    var front := evs[..i];
    var rest := evs[i + 1..];
    assert evs == front + [evs[i]] + rest;
    DeliverAppend(Some(w), front + [evs[i]], rest);
    DeliverAppend(Some(w), front, [evs[i]]);
    TrackedSetKept(w, front);
    var before := Deliver(Some(w), front).value;
    assert [evs[i]][..0] == [];
    assert Deliver(Some(before), [evs[i]]) == WinEventProc(Some(before), evs[i]).watcher;
    var after := before.(lastGoodWindow := evs[i].hwnd);
    assert after.tracked == w.tracked;
    TrackedEventsChangeNothing(after, rest);
  }

  /** The callback never changes the tracked set. */
  lemma {:induction false} TrackedSetKept(w: Watcher, evs: seq<FocusEvent>)
    ensures Deliver(Some(w), evs).Some?
    ensures Deliver(Some(w), evs).value.tracked == w.tracked
  {
    if |evs| > 0 {
      TrackedSetKept(w, evs[..|evs| - 1]);
    }
  }

  /** With no trusted window, a tracked window that passes no filter keeps
      the focus; once an untracked window has had the focus, the same steal
      is reverted to it. */
  lemma StealAfterOtherWindowIsReverted(w: Watcher, other: FocusEvent, steal: FocusEvent)
    requires Untracked(w.tracked, other)
    requires IsTrackedEvent(w, steal) && !PassesFilters(steal)
    ensures Deliver(Some(w), [other, steal]) == Some(w.(lastGoodWindow := other.hwnd))
    ensures WinEventProc(Deliver(Some(w), [other]), steal).decision == Revert(other.hwnd, steal.hwnd)
  {
    assert [other, steal][..1] == [other];
    assert [other][..0] == [];
    assert Deliver(Some(w), []) == Some(w);
    var after := Deliver(Some(w), [other]);
    assert after == WinEventProc(Some(w), other).watcher;
    assert after.value.tracked == w.tracked;
    assert IsTrackedEvent(after.value, steal);
  }

  /** Nothing stops the trusted window from belonging to WhatsApp itself: a
      WhatsApp window focused before the first QoS tick publishes any pid is
      trusted, and once its pid is tracked, a steal by that same window
      "reverts" the focus to itself and flashes it. */
  lemma RevertCanTargetTheStealer(ev: FocusEvent, pids: seq<Pid>)
    requires ev.hwnd != 0 && ev.ownerPid in pids && !PassesFilters(ev)
    ensures var early := Deliver(Some(NewWatcher()), [ev]);
            && early == Some(Watcher({}, ev.hwnd))
            && WinEventProc(Some(UpdatePIDs(early.value, pids)), ev).decision == Revert(ev.hwnd, ev.hwnd)
  {
    assert [ev][..0] == [];
  }
}
