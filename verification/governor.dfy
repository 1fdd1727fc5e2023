/** The CPU/power governor (internal/cpu/governor.go): switching one process
    between Efficiency and Performance, and reading working-set sizes. The
    outcome of every OS call is an input. */
module Governor {
  import opened Base

  /** PROCESS_POWER_THROTTLING_EXECUTION_SPEED: the only control bit used. */
  const THROTTLE_EXECUTION_SPEED: u32 := 0x1
  const IDLE_PRIORITY_CLASS: u32 := 0x40
  const NORMAL_PRIORITY_CLASS: u32 := 0x20
  const BYTES_PER_MB: nat := 1024 * 1024

  /** One more than the largest megabyte count a 64-bit byte count yields. */
  const MB_BOUND: nat := 0x1000_0000_0000

  /** Process count below which summing megabytes in a uint64 cannot wrap. */
  const NO_WRAP_PIDS: nat := 0x10_0000

  datatype PowerMode = Efficiency | Performance

  datatype GovError = OpenFailed | PriorityFailed | MemoryQueryFailed

  /** Whether each OS call an Enforce*Mode makes on one pid would succeed. */
  datatype ProcessAccess = ProcessAccess(opens: bool, throttles: bool, setsPriority: bool)

  /** The OS calls made on an opened process handle. */
  datatype SysCall =
    | SetPowerThrottling(controlMask: u32, stateMask: u32)
    | SetPriorityClass(priorityClass: u32)

  datatype Enforcement = Enforcement(calls: seq<SysCall>, err: Option<GovError>)

  function ThrottleState(mode: PowerMode): u32
  {
    match mode
    case Efficiency => THROTTLE_EXECUTION_SPEED
    case Performance => 0
  }

  function PriorityClass(mode: PowerMode): u32
  {
    match mode
    case Efficiency => IDLE_PRIORITY_CLASS
    case Performance => NORMAL_PRIORITY_CLASS
  }

  /** `EnforceEfficiencyMode` (mode Efficiency) and `EnforcePerformanceMode`
      (mode Performance): open the process, set the execution-speed
      throttling bit on or off, then set IDLE or NORMAL priority. Only a
      failed open or a failed priority change is an error; the throttling
      call's outcome is ignored. */
  function EnforceMode(mode: PowerMode, access: ProcessAccess): (r: Enforcement)
    ensures r.err.Some? <==> !access.opens || !access.setsPriority
    ensures r.err == Some(OpenFailed) <==> !access.opens
    ensures r.err == Some(PriorityFailed) <==> access.opens && !access.setsPriority
    ensures !access.opens ==> r.calls == []
    ensures access.opens ==>
              && |r.calls| == 2
              && r.calls[0] == SetPowerThrottling(THROTTLE_EXECUTION_SPEED, if mode == Efficiency then 1 else 0)
              && r.calls[1] == SetPriorityClass(if mode == Efficiency then 0x40 else 0x20)
  {
    if !access.opens then Enforcement([], Some(OpenFailed))
    else
      var calls := [SetPowerThrottling(THROTTLE_EXECUTION_SPEED, ThrottleState(mode)),
                    SetPriorityClass(PriorityClass(mode))];
      Enforcement(calls, if access.setsPriority then None else Some(PriorityFailed))
  }

  /** A failed throttling call changes nothing about the outcome. */
  lemma ThrottleOutcomeIgnored(mode: PowerMode, access: ProcessAccess)
    ensures EnforceMode(mode, access) == EnforceMode(mode, access.(throttles := !access.throttles))
  {
  }

  // ---------------------------------------------------------------------
  // Memory usage

  /** What the OS reports when asked for one process's working set. */
  datatype MemoryProbe = CannotOpen | QueryFails | WorkingSet(bytes: u64)

  /** The source's `(uint64, error)` result. */
  datatype MemoryUsage = MemoryUsage(mb: u64, err: Option<GovError>)

  /** Working-set bytes to whole megabytes, rounded down. */
  function BytesToMB(bytes: u64): (mb: u64)
    ensures mb * BYTES_PER_MB <= bytes < (mb + 1) * BYTES_PER_MB
    ensures mb < MB_BOUND
  {
    bytes / BYTES_PER_MB
  }

  /** `GetMemoryUsageMB`: the working set in whole megabytes, or 0 with an
      error when the process cannot be opened or queried. */
  function GetMemoryUsageMB(probe: MemoryProbe): (r: MemoryUsage)
    ensures r.err.None? <==> probe.WorkingSet?
    ensures r.err.Some? ==> r.mb == 0
    ensures probe.CannotOpen? ==> r.err == Some(OpenFailed)
    ensures probe.QueryFails? ==> r.err == Some(MemoryQueryFailed)
    ensures probe.WorkingSet? ==> r.mb * BYTES_PER_MB <= probe.bytes < (r.mb + 1) * BYTES_PER_MB
  {
    match probe
    case CannotOpen => MemoryUsage(0, Some(OpenFailed))
    case QueryFails => MemoryUsage(0, Some(MemoryQueryFailed))
    case WorkingSet(bytes) => MemoryUsage(BytesToMB(bytes), None)
  }

  /** Reference sum: the megabytes of the pids whose query succeeds, as an
      unbounded integer. */
  function SucceededMB(pids: seq<Pid>, probe: Pid -> MemoryProbe): nat
  {
    if |pids| == 0 then 0
    else
      var u := GetMemoryUsageMB(probe(pids[|pids| - 1]));
      SucceededMB(pids[..|pids| - 1], probe) + (if u.err.None? then u.mb else 0)
  }

  /** `GetTotalMemoryUsageMB`: the per-pid megabytes added left to right in
      a uint64, skipping pids whose query fails. */
  function GetTotalMemoryUsageMB(pids: seq<Pid>, probe: Pid -> MemoryProbe): (total: u64)
    ensures |pids| == 0 ==> total == 0
    ensures total == SucceededMB(pids, probe) % 0x1_0000_0000_0000_0000
  {
    if |pids| == 0 then 0
    else
      var u := GetMemoryUsageMB(probe(pids[|pids| - 1]));
      var before := GetTotalMemoryUsageMB(pids[..|pids| - 1], probe);
      WrapAdd(SucceededMB(pids[..|pids| - 1], probe), u.mb);
      if u.err.None? then (before + u.mb) % 0x1_0000_0000_0000_0000 else before
  }

  /** Adding to a wrapped sum is wrapping the exact sum. */
  lemma WrapAdd(a: nat, b: nat)
    ensures (a % 0x1_0000_0000_0000_0000 + b) % 0x1_0000_0000_0000_0000 == (a + b) % 0x1_0000_0000_0000_0000
  {
  }

  /** No pid contributes more than MB_BOUND - 1. */
  lemma {:induction false} SucceededMBBound(pids: seq<Pid>, probe: Pid -> MemoryProbe)
    ensures SucceededMB(pids, probe) <= |pids| * (MB_BOUND - 1)
  {
    if |pids| > 0 {
      SucceededMBBound(pids[..|pids| - 1], probe);
    }
  }

  /** Below 2^20 processes the uint64 total never wraps: it is the exact sum
      of the successful readings. */
  lemma TotalIsExactSum(pids: seq<Pid>, probe: Pid -> MemoryProbe)
    requires |pids| < NO_WRAP_PIDS
    ensures GetTotalMemoryUsageMB(pids, probe) == SucceededMB(pids, probe)
  {
    SucceededMBBound(pids, probe);
  }

  /** The reference sum splits over concatenation. */
  lemma {:induction false} SucceededMBAppend(a: seq<Pid>, b: seq<Pid>, probe: Pid -> MemoryProbe)
    ensures SucceededMB(a + b, probe) == SucceededMB(a, probe) + SucceededMB(b, probe)
    decreases |b|
  {
    if |b| > 0 {
      assert (a + b)[..|a + b| - 1] == a + b[..|b| - 1];
      SucceededMBAppend(a, b[..|b| - 1], probe);
    } else {
      assert a + b == a;
    }
  }

  /** A pid whose query fails contributes nothing: the sum over a list with
      it equals the sum over the list without it. */
  lemma FailingPidContributesNothing(a: seq<Pid>, p: Pid, b: seq<Pid>, probe: Pid -> MemoryProbe)
    requires !probe(p).WorkingSet?
    ensures SucceededMB(a + [p] + b, probe) == SucceededMB(a + b, probe)
  {
    SucceededMBAppend(a + [p], b, probe);
    SucceededMBAppend(a, [p], probe);
    SucceededMBAppend(a, b, probe);
    assert [p][..0] == [];
  }

  /** Adding a pid to the list never lowers the total (below the wrap-around
      bound). */
  lemma TotalMonotone(pids: seq<Pid>, p: Pid, probe: Pid -> MemoryProbe)
    requires |pids| + 1 < NO_WRAP_PIDS
    ensures GetTotalMemoryUsageMB(pids, probe) <= GetTotalMemoryUsageMB(pids + [p], probe)
  {
    TotalIsExactSum(pids, probe);
    TotalIsExactSum(pids + [p], probe);
    assert (pids + [p])[..|pids|] == pids;
  }
}
