/** The focus classifier (internal/window/focus.go): does one of the given
    processes own the foreground window? The two OS reads (foreground window
    and its owning process) are inputs. */
module Focus {
  import opened Base

  /** What the OS reports about the foreground window. `ownerPid` is what
      the owner lookup wrote, 0 when it wrote nothing. */
  datatype Foreground = Foreground(hwnd: Hwnd, ownerPid: Pid)

  /** The source's linear scan for `pid`. */
  function Occurs(pids: seq<Pid>, pid: Pid): (found: bool)
    ensures found <==> pid in pids
  {
    if |pids| == 0 then false
    else pids[0] == pid || Occurs(pids[1..], pid)
  }

  /** `IsAnyProcessFocused`: no foreground window means false; otherwise
      true exactly when the window's owner is one of `pids`. */
  function IsAnyProcessFocused(pids: seq<Pid>, fg: Foreground): (focused: bool)
    ensures focused <==> fg.hwnd != 0 && fg.ownerPid in pids
    ensures |pids| == 0 ==> !focused
  {
    fg.hwnd != 0 && Occurs(pids, fg.ownerPid)
  }

  /** The answer depends only on which pids are listed, not on their order
      or repetition. */
  lemma FocusIgnoresOrderAndDuplicates(a: seq<Pid>, b: seq<Pid>, fg: Foreground)
    requires Elems(a) == Elems(b)
    ensures IsAnyProcessFocused(a, fg) == IsAnyProcessFocused(b, fg)
  {
    assert fg.ownerPid in a <==> fg.ownerPid in Elems(a);
    assert fg.ownerPid in b <==> fg.ownerPid in Elems(b);
  }
}
