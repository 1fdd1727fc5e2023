/** Process lookup over one snapshot of the OS process table
    (internal/utils/process.go): exact-name lookup, prefix lookup and the
    root-plus-descendants resolution used by the rest of the core.

    A snapshot is modelled as the sequence of records the enumeration
    delivered plus how it ended. An empty record sequence means the very
    first enumeration call (or the snapshot itself) failed; the source
    returns that error as is, so even an empty table is an enumeration
    failure and not "not found". */
module ProcessTree {
  import opened Base
  import opened Text

  datatype ProcessRecord = ProcessRecord(pid: Pid, parentPid: Pid, exeName: string)

  /** How enumeration stopped after the last delivered record. */
  datatype EnumEnd = NoMoreFiles | EnumError

  datatype Listing = Listing(records: seq<ProcessRecord>, end: EnumEnd)

  datatype ProcError = NotFound | EnumerationFailed

  datatype ProcInfo = ProcInfo(parentPid: Pid, name: string)

  /** The pid -> (parent, name) map built by the first pass. */
  type Table = map<Pid, ProcInfo>

  /** The first enumeration call failed, so no record was delivered. */
  predicate FirstCallFailed(listing: Listing)
  {
    |listing.records| == 0
  }

  predicate NameMatches(r: ProcessRecord, exeName: string)
  {
    EqualFold(r.exeName, exeName)
  }

  // ---------------------------------------------------------------------
  // FindPID

  /** Pid of the first record whose name matches, scanning in order. */
  function FirstMatch(records: seq<ProcessRecord>, exeName: string): (r: Option<Pid>)
    ensures r.None? <==> forall i :: 0 <= i < |records| ==> !NameMatches(records[i], exeName)
    ensures r.Some? ==> exists i :: 0 <= i < |records| && NameMatches(records[i], exeName)
                          && records[i].pid == r.value
                          && forall j :: 0 <= j < i ==> !NameMatches(records[j], exeName)
  {
    if |records| == 0 then None
    else if NameMatches(records[0], exeName) then Some(records[0].pid)
    else
      var r := FirstMatch(records[1..], exeName);
      assert forall j :: 1 <= j < |records| ==> records[j] == records[1..][j - 1];
      r
  }

  /** `FindPID`: the pid of the first record whose name equals `exeName`
      ignoring case. A match ends the scan, so a later enumeration error is
      never seen; without a match the enumeration's own ending decides. */
  function FindPid(listing: Listing, exeName: string): (r: Result<Pid, ProcError>)
    ensures FirstCallFailed(listing) ==> r == Err(EnumerationFailed)
    ensures r.Ok? ==> exists i :: 0 <= i < |listing.records|
                        && NameMatches(listing.records[i], exeName)
                        && listing.records[i].pid == r.value
                        && forall j :: 0 <= j < i ==> !NameMatches(listing.records[j], exeName)
    ensures r == Err(NotFound) <==>
              && !FirstCallFailed(listing)
              && listing.end == NoMoreFiles
              && forall i :: 0 <= i < |listing.records| ==> !NameMatches(listing.records[i], exeName)
    ensures r == Err(EnumerationFailed) <==>
              || FirstCallFailed(listing)
              || (listing.end == EnumError
                  && forall i :: 0 <= i < |listing.records| ==> !NameMatches(listing.records[i], exeName))
  {
    if FirstCallFailed(listing) then Err(EnumerationFailed)
    else
      var m := FirstMatch(listing.records, exeName);
      if m.Some? then Ok(m.value)
      else if listing.end == NoMoreFiles then Err(NotFound)
      else
        assert listing.end == EnumError;
        Err(EnumerationFailed)
  }

  // ---------------------------------------------------------------------
  // FindProcessesByPrefix

  /** Pids, in enumeration order, of the records whose lower-cased name
      starts with `prefixLower`. */
  function PrefixMatches(records: seq<ProcessRecord>, prefixLower: string): seq<Pid>
  {
    if |records| == 0 then []
    else (if HasPrefix(Lower(records[0].exeName), prefixLower) then [records[0].pid] else [])
         + PrefixMatches(records[1..], prefixLower)
  }

  /** The source returns the pids collected so far together with the error. */
  datatype PrefixScan = PrefixScan(pids: seq<Pid>, err: Option<ProcError>)

  /** `FindProcessesByPrefix`: exactly the pids whose lower-cased name starts
      with the lower-cased prefix; an enumeration error after the first
      record keeps the pids already collected. */
  function FindProcessesByPrefix(listing: Listing, prefix: string): (r: PrefixScan)
    ensures FirstCallFailed(listing) ==> r == PrefixScan([], Some(EnumerationFailed))
    ensures !FirstCallFailed(listing) ==>
              r.err == (if listing.end == NoMoreFiles then None else Some(EnumerationFailed))
    ensures forall p :: p in r.pids <==>
              exists i :: 0 <= i < |listing.records| && listing.records[i].pid == p
                          && HasPrefix(Lower(listing.records[i].exeName), Lower(prefix))
    ensures |r.pids| <= |listing.records|
    // The pids keep enumeration order (see PrefixMatchesSnoc).
    ensures !FirstCallFailed(listing) ==> r.pids == PrefixMatches(listing.records, Lower(prefix))
  {
    if FirstCallFailed(listing) then PrefixScan([], Some(EnumerationFailed))
    else
      var pids := PrefixMatches(listing.records, Lower(prefix));
      PrefixMatchesMembers(listing.records, Lower(prefix));
      PrefixScan(pids, if listing.end == NoMoreFiles then None else Some(EnumerationFailed))
  }

  lemma {:induction false} PrefixMatchesMembers(records: seq<ProcessRecord>, prefixLower: string)
    ensures forall p :: p in PrefixMatches(records, prefixLower) <==>
              exists i :: 0 <= i < |records| && records[i].pid == p
                          && HasPrefix(Lower(records[i].exeName), prefixLower)
    ensures |PrefixMatches(records, prefixLower)| <= |records|
  {
    if |records| > 0 {
      PrefixMatchesMembers(records[1..], prefixLower);
      assert forall j :: 1 <= j < |records| ==> records[j] == records[1..][j - 1];
      forall p | p in PrefixMatches(records, prefixLower)
        ensures exists i :: 0 <= i < |records| && records[i].pid == p
                            && HasPrefix(Lower(records[i].exeName), prefixLower)
      {
        if !(HasPrefix(Lower(records[0].exeName), prefixLower) && p == records[0].pid) {
          var i :| 0 <= i < |records[1..]| && records[1..][i].pid == p
                   && HasPrefix(Lower(records[1..][i].exeName), prefixLower);
          assert records[i + 1] == records[1..][i];
        }
      }
    }
  }

  /** Scanning one more record appends its pid exactly when it matches: the
      result keeps enumeration order and lists a pid once per matching record. */
  lemma {:induction false} PrefixMatchesSnoc(records: seq<ProcessRecord>, r: ProcessRecord, prefixLower: string)
    ensures PrefixMatches(records + [r], prefixLower)
            == PrefixMatches(records, prefixLower)
               + (if HasPrefix(Lower(r.exeName), prefixLower) then [r.pid] else [])
  {
    if |records| > 0 {
      assert (records + [r])[1..] == records[1..] + [r];
      PrefixMatchesSnoc(records[1..], r, prefixLower);
    } else {
      assert (records + [r])[1..] == [];
    }
  }

  // ---------------------------------------------------------------------
  // FindProcessTree, first pass

  /** The record at index `i` is the last one carrying its pid. */
  predicate LastWithPid(records: seq<ProcessRecord>, i: int)
    requires 0 <= i < |records|
  {
    forall j :: i < j < |records| ==> records[j].pid != records[i].pid
  }

  /** The map of the first pass: one entry per pid, written record by record. */
  function BuildTable(records: seq<ProcessRecord>): (t: Table)
    // Every entry was written from some record carrying its pid.
    ensures forall p :: p in t ==>
              (exists i :: 0 <= i < |records| && records[i].pid == p
                           && t[p] == ProcInfo(records[i].parentPid, records[i].exeName))
  {
    if |records| == 0 then map[]
    else
      var r := records[|records| - 1];
      BuildTable(records[..|records| - 1])[r.pid := ProcInfo(r.parentPid, r.exeName)]
  }

  /** The table holds exactly the pids that were enumerated. */
  lemma {:induction false} BuildTableKeys(records: seq<ProcessRecord>)
    ensures forall p :: p in BuildTable(records) <==> exists i :: 0 <= i < |records| && records[i].pid == p
  {
    if |records| > 0 {
      var init := records[..|records| - 1];
      var r := records[|records| - 1];
      BuildTableKeys(init);
      assert BuildTable(records) == BuildTable(init)[r.pid := ProcInfo(r.parentPid, r.exeName)];
      forall p | p in BuildTable(records)
        ensures exists i :: 0 <= i < |records| && records[i].pid == p
      {
        if p != r.pid {
          assert p in BuildTable(init);
          var i :| 0 <= i < |init| && init[i].pid == p;
          assert records[i] == init[i];
        }
      }
      forall i | 0 <= i < |records|
        ensures records[i].pid in BuildTable(records)
      {
        if i < |init| {
          assert records[i] == init[i];
        }
      }
    }
  }

  /** A pid enumerated twice keeps the information of its last record. */
  lemma {:induction false} BuildTableLastWins(records: seq<ProcessRecord>, i: int)
    requires 0 <= i < |records| && LastWithPid(records, i)
    ensures records[i].pid in BuildTable(records)
    ensures BuildTable(records)[records[i].pid] == ProcInfo(records[i].parentPid, records[i].exeName)
  {
    var init := records[..|records| - 1];
    if i < |init| {
      assert records[i] == init[i];
      assert LastWithPid(init, i);
      BuildTableLastWins(init, i);
    }
  }

  /** The root pid chosen by the first pass: every matching record overwrites
      it, so the last match wins; 0 when nothing matches. */
  function RootPid(records: seq<ProcessRecord>, rootName: string): (p: Pid)
    ensures (forall i :: 0 <= i < |records| ==> !NameMatches(records[i], rootName)) ==> p == 0
    ensures (exists i :: 0 <= i < |records| && NameMatches(records[i], rootName)) ==>
              exists i :: 0 <= i < |records| && NameMatches(records[i], rootName)
                          && records[i].pid == p
                          && forall j :: i < j < |records| ==> !NameMatches(records[j], rootName)
  {
    if |records| == 0 then 0
    else
      var init := records[..|records| - 1];
      var r := records[|records| - 1];
      assert forall i :: 0 <= i < |init| ==> init[i] == records[i];
      if NameMatches(r, rootName) then r.pid else RootPid(init, rootName)
  }

  /** The pids of the table, each once, in order of first appearance; the
      children of a pid are taken in this order. */
  function KeyOrder(records: seq<ProcessRecord>): (ks: seq<Pid>)
    ensures Distinct(ks)
    ensures forall p :: p in ks <==> exists i :: 0 <= i < |records| && records[i].pid == p
  {
    if |records| == 0 then []
    else
      var init := records[..|records| - 1];
      var r := records[|records| - 1];
      assert forall i :: 0 <= i < |init| ==> init[i] == records[i];
      var ks := KeyOrder(init);
      if r.pid in ks then ks else ks + [r.pid]
  }

  // ---------------------------------------------------------------------
  // FindProcessTree, second pass

  /** The `k`-th ancestor of `p`, following parent links and stopping at a
      pid that is its own parent or is missing from the table. */
  function Ancestor(t: Table, p: Pid, k: nat): Option<Pid>
    decreases k
  {
    if k == 0 then Some(p)
    else if p in t && t[p].parentPid != p then Ancestor(t, t[p].parentPid, k - 1)
    else None
  }

  /** `root` lies on a parent cycle of length two or more. Exactly then the
      source's breadth-first walk never terminates: `root` is re-enqueued as
      a child of one of its own descendants, again and again. */
  ghost predicate OnParentCycle(t: Table, root: Pid)
  {
    exists k: nat :: k >= 1 && Ancestor(t, root, k) == Some(root)
  }

  /** The children the walk enqueues for `current`, in `keys` order. */
  function Children(t: Table, keys: seq<Pid>, current: Pid): (cs: seq<Pid>)
    requires forall k :: k in keys ==> k in t
    ensures forall c :: c in cs <==> c in keys && t[c].parentPid == current && c != current
    ensures Distinct(keys) ==> Distinct(cs)
  {
    if |keys| == 0 then []
    else
      var rest := Children(t, keys[1..], current);
      assert forall c :: c in keys[1..] ==> c in keys;
      if t[keys[0]].parentPid == current && keys[0] != current then [keys[0]] + rest else rest
  }

  /** `s` starts at `root` and every later pid's parent appears before it. */
  ghost predicate ParentsFirst(t: Table, root: Pid, s: seq<Pid>)
  {
    && |s| > 0
    && s[0] == root
    && forall i :: 0 < i < |s| ==>
         && s[i] in t
         && t[s[i]].parentPid != s[i]
         && t[s[i]].parentPid in s[..i]
  }

  /** Every pid of the table whose parent is in `s` (self-parents excluded)
      is itself in `s`. */
  ghost predicate ClosedUnderChildren(t: Table, s: seq<Pid>)
  {
    forall c :: c in t && t[c].parentPid in s && t[c].parentPid != c ==> c in s
  }

  /** A complete, duplicate-free walk of the tree below `root`. */
  ghost predicate IsTreeWalk(t: Table, root: Pid, s: seq<Pid>)
  {
    ParentsFirst(t, root, s) && ClosedUnderChildren(t, s) && Distinct(s)
  }

  /** Each enqueued pid descends from the root: `depth[i]` parent steps
      lead from `enq[i]` back to it. */
  ghost predicate DepthWitness(t: Table, root: Pid, enq: seq<Pid>, depth: seq<nat>)
  {
    |depth| == |enq| && forall i :: 0 <= i < |enq| ==> Ancestor(t, enq[i], depth[i]) == Some(root)
  }

  /** Each enqueued pid after the root was enqueued while its parent, at
      index `parentAt[i]` among the first `popped`, was being output. */
  ghost predicate ParentWitness(t: Table, enq: seq<Pid>, popped: nat, parentAt: seq<nat>)
    requires forall p :: p in enq ==> p in t
  {
    |parentAt| == |enq|
    && forall i :: 0 < i < |enq| ==>
         && parentAt[i] < i
         && parentAt[i] < popped
         && t[enq[i]].parentPid == enq[parentAt[i]]
         && enq[i] != enq[parentAt[i]]
  }

  /** Every child of an already output pid has been enqueued. */
  ghost predicate ChildrenEnqueued(t: Table, enq: seq<Pid>, popped: nat)
    requires popped <= |enq|
  {
    forall c :: c in t && t[c].parentPid in enq[..popped] && t[c].parentPid != c ==> c in enq
  }

  /** What the walk knows after `popped` of the pids enqueued so far (`enq`,
      the output followed by the queue) have been taken off the queue. */
  ghost predicate WalkState(t: Table, root: Pid, enq: seq<Pid>, popped: nat, depth: seq<nat>, parentAt: seq<nat>)
  {
    && 0 < |enq| && enq[0] == root && popped <= |enq|
    && (forall p :: p in enq ==> p in t)
    && Distinct(enq)
    && DepthWitness(t, root, enq, depth)
    && ParentWitness(t, enq, popped, parentAt)
    && ChildrenEnqueued(t, enq, popped)
  }

  /** The children of the pid at the head of the queue have never been
      enqueued: not the root, which is on no cycle, and no other pid, whose
      only parent has already been output. */
  lemma ChildrenAreFresh(t: Table, root: Pid, enq: seq<Pid>, popped: nat, depth: seq<nat>,
                         parentAt: seq<nat>, c: Pid)
    requires WalkState(t, root, enq, popped, depth, parentAt)
    requires popped < |enq|
    requires !OnParentCycle(t, root)
    requires c in t && t[c].parentPid == enq[popped] && c != enq[popped]
    ensures c !in enq
  {
    var d := depth[popped];
    assert Ancestor(t, c, d + 1) == Some(root);
    assert c != root;
    forall i | 0 < i < |enq| ensures enq[i] != c {
      assert enq[parentAt[i]] != enq[popped];
    }
  }

  lemma DepthStep(t: Table, root: Pid, enq: seq<Pid>, popped: nat, depth: seq<nat>, kids: seq<Pid>)
    requires DepthWitness(t, root, enq, depth)
    requires popped < |enq|
    requires forall c :: c in kids ==> c in t && t[c].parentPid == enq[popped] && c != enq[popped]
    ensures DepthWitness(t, root, enq + kids, depth + seq(|kids|, _ => depth[popped] + 1))
  {
    var enq' := enq + kids;
    var depth' := depth + seq(|kids|, _ => depth[popped] + 1);
    forall i | 0 <= i < |enq'|
      ensures Ancestor(t, enq'[i], depth'[i]) == Some(root)
    {
      if i >= |enq| {
        assert enq'[i] == kids[i - |enq|];
        assert Ancestor(t, enq'[i], depth'[i]) == Ancestor(t, enq[popped], depth[popped]);
      }
    }
  }

  lemma ParentStep(t: Table, enq: seq<Pid>, popped: nat, parentAt: seq<nat>, kids: seq<Pid>)
    requires forall p :: p in enq ==> p in t
    requires ParentWitness(t, enq, popped, parentAt)
    requires popped < |enq|
    requires forall c :: c in kids ==> c in t && t[c].parentPid == enq[popped] && c != enq[popped]
    ensures forall p :: p in enq + kids ==> p in t
    ensures ParentWitness(t, enq + kids, popped + 1, parentAt + seq(|kids|, _ => popped))
  {
    var enq' := enq + kids;
    var parentAt' := parentAt + seq(|kids|, _ => popped);
    forall i | 0 < i < |enq'|
      ensures parentAt'[i] < i && parentAt'[i] < popped + 1
      ensures t[enq'[i]].parentPid == enq'[parentAt'[i]] && enq'[i] != enq'[parentAt'[i]]
    {
      if i >= |enq| {
        assert enq'[i] == kids[i - |enq|];
      }
    }
  }

  lemma ChildrenStep(t: Table, enq: seq<Pid>, popped: nat, kids: seq<Pid>)
    requires popped < |enq|
    requires ChildrenEnqueued(t, enq, popped)
    requires forall c :: c in t && t[c].parentPid == enq[popped] && c != enq[popped] ==> c in enq + kids
    ensures ChildrenEnqueued(t, enq + kids, popped + 1)
  {
    var enq' := enq + kids;
    assert enq'[..popped + 1] == enq[..popped] + [enq[popped]];
  }

  /** Taking the head off the queue and enqueueing its children keeps the
      walk's invariant. */
  lemma WalkStepKeepsState(t: Table, root: Pid, enq: seq<Pid>, popped: nat, depth: seq<nat>,
                           parentAt: seq<nat>, kids: seq<Pid>)
    requires WalkState(t, root, enq, popped, depth, parentAt)
    requires popped < |enq|
    requires !OnParentCycle(t, root)
    requires forall c :: c in kids <==> c in t && t[c].parentPid == enq[popped] && c != enq[popped]
    requires Distinct(kids)
    ensures forall c :: c in kids ==> c in t && c !in enq
    ensures WalkState(t, root, enq + kids, popped + 1,
                      depth + seq(|kids|, _ => depth[popped] + 1), parentAt + seq(|kids|, _ => popped))
  {
    forall c | c in kids ensures c !in enq {
      ChildrenAreFresh(t, root, enq, popped, depth, parentAt, c);
    }
    DepthStep(t, root, enq, popped, depth, kids);
    ParentStep(t, enq, popped, parentAt, kids);
    ChildrenStep(t, enq, popped, kids);
    var enq' := enq + kids;
    forall i, j | 0 <= i < j < |enq'| ensures enq'[i] != enq'[j] {
      if j >= |enq| {
        assert enq'[j] == kids[j - |enq|];
        if i >= |enq| {
          assert enq'[i] == kids[i - |enq|];
        }
      }
    }
  }

  /** Once the queue is empty the invariant is a complete walk. */
  lemma WalkStateDone(t: Table, root: Pid, enq: seq<Pid>, depth: seq<nat>, parentAt: seq<nat>)
    requires WalkState(t, root, enq, |enq|, depth, parentAt)
    ensures IsTreeWalk(t, root, enq)
  {
    assert enq[..|enq|] == enq;
    forall i | 0 < i < |enq|
      ensures t[enq[i]].parentPid in enq[..i]
    {
      assert enq[..i][parentAt[i]] == enq[parentAt[i]];
    }
  }

  /** Enqueueing at least one fresh pid of the table shrinks the set of
      pids never enqueued. */
  lemma UnvisitedShrinks(t: Table, enq: seq<Pid>, kids: seq<Pid>)
    requires forall c :: c in kids ==> c in t && c !in enq
    ensures t.Keys - Elems(enq + kids) <= t.Keys - Elems(enq)
    ensures |kids| > 0 ==> t.Keys - Elems(enq + kids) < t.Keys - Elems(enq)
  {
    if |kids| > 0 {
      assert kids[0] in t.Keys - Elems(enq);
      assert kids[0] !in t.Keys - Elems(enq + kids);
    }
  }

  /** Moving the head of the queue to the output and appending to the queue
      extends output-then-queue by exactly the appended pids. */
  lemma PopAndPush(result: seq<Pid>, queue: seq<Pid>, kids: seq<Pid>)
    requires |queue| > 0
    ensures (result + [queue[0]]) + (queue[1..] + kids) == (result + queue) + kids
  {
    assert queue == [queue[0]] + queue[1..];
  }

  /** One iteration of the walk: output the head of the queue and enqueue
      its children. Returns the updated ghost witnesses. */
  lemma WalkAdvanceAt(t: Table, keys: seq<Pid>, root: Pid, enq: seq<Pid>, popped: nat,
                    depth: seq<nat>, parentAt: seq<nat>, kids: seq<Pid>)
    returns (depth': seq<nat>, parentAt': seq<nat>)
    requires Distinct(keys)
    requires forall k :: k in keys <==> k in t
    requires !OnParentCycle(t, root)
    requires popped < |enq|
    requires WalkState(t, root, enq, popped, depth, parentAt)
    requires kids == Children(t, keys, enq[popped])
    ensures WalkState(t, root, enq + kids, popped + 1, depth', parentAt')
    ensures forall c :: c in kids ==> c in t && c !in enq
  {
    WalkStepKeepsState(t, root, enq, popped, depth, parentAt, kids);
    depth' := depth + seq(|kids|, _ => depth[popped] + 1);
    parentAt' := parentAt + seq(|kids|, _ => popped);
  }

  /** The loop body's step, stated over the output and the queue. */
  lemma WalkAdvance(t: Table, keys: seq<Pid>, root: Pid, result: seq<Pid>, queue: seq<Pid>,
                    depth: seq<nat>, parentAt: seq<nat>, kids: seq<Pid>)
    returns (depth': seq<nat>, parentAt': seq<nat>)
    requires Distinct(keys)
    requires forall k :: k in keys <==> k in t
    requires !OnParentCycle(t, root)
    requires |queue| > 0
    requires WalkState(t, root, result + queue, |result|, depth, parentAt)
    requires kids == Children(t, keys, queue[0])
    ensures WalkState(t, root, (result + queue) + kids, |result| + 1, depth', parentAt')
    ensures (result + [queue[0]]) + (queue[1..] + kids) == (result + queue) + kids
    ensures |kids| > 0 ==> t.Keys - Elems((result + queue) + kids) < t.Keys - Elems(result + queue)
  {
    var enq := result + queue;
    assert queue[0] == enq[|result|];
    depth', parentAt' := WalkAdvanceAt(t, keys, root, enq, |result|, depth, parentAt, kids);
    UnvisitedShrinks(t, enq, kids);
    PopAndPush(result, queue, kids);
  }

  /** The breadth-first walk from `root`, with a queue. */
  method WalkTree(t: Table, keys: seq<Pid>, root: Pid) returns (result: seq<Pid>)
    requires root in t
    requires Distinct(keys)
    requires forall k :: k in keys <==> k in t
    requires !OnParentCycle(t, root)
    ensures IsTreeWalk(t, root, result)
    ensures forall p :: p in result ==> p in t
  {
    result := [];
    var queue := [root];
    ghost var enq := [root];
    ghost var depth: seq<nat> := [0];
    ghost var parentAt: seq<nat> := [0];
    while |queue| > 0
      invariant enq == result + queue
      invariant WalkState(t, root, enq, |result|, depth, parentAt)
      decreases t.Keys - Elems(enq), |queue|
    {
      var current := queue[0];
      var kids := Children(t, keys, current);
      depth, parentAt := WalkAdvance(t, keys, root, result, queue, depth, parentAt, kids);
      enq := enq + kids;
      result, queue := result + [current], queue[1..] + kids;
    }
    assert enq == result;
    WalkStateDone(t, root, result, depth, parentAt);
  }

  /** The queue of the source's loop after `n` iterations (or once it has
      emptied): pop the head and append all of its children, whether or not
      they were seen before. */
  function QueueAfter(t: Table, keys: seq<Pid>, queue: seq<Pid>, n: nat): (q: seq<Pid>)
    requires forall k :: k in keys ==> k in t
    // An empty queue stays empty: the loop has ended.
    ensures |queue| == 0 ==> q == []
    // Every queued pid was queued at the start or is a pid of the table.
    ensures forall p :: p in q ==> p in queue || p in keys
    decreases n
  {
    if n == 0 || |queue| == 0 then queue
    else
      var next := queue[1..] + Children(t, keys, queue[0]);
      var q := QueueAfter(t, keys, next, n - 1);
      assert forall p :: p in next ==> p in queue || p in keys;
      q
  }

  /** Pid reuse can put the root on a parent cycle: the root's parent died
      and its pid went to one of the root's own children. The source's walk
      then never ends: after any number of iterations its queue still holds
      the root or that child. */
  lemma PidReuseCycleNeverEnds(root: Pid, child: Pid, n: nat)
    requires root != child
    ensures var t := map[root := ProcInfo(child, "WhatsApp.Root.exe"), child := ProcInfo(root, "msedgewebview2.exe")];
            && OnParentCycle(t, root)
            && QueueAfter(t, [root, child], [root], n) in {[root], [child]}
  {
    var t := map[root := ProcInfo(child, "WhatsApp.Root.exe"), child := ProcInfo(root, "msedgewebview2.exe")];
    assert Ancestor(t, root, 2) == Some(root);
    CycleQueueAlternates(t, root, child, [root], n);
  }

  lemma {:induction false} CycleQueueAlternates(t: Table, root: Pid, child: Pid, q: seq<Pid>, n: nat)
    requires root != child
    requires t == map[root := ProcInfo(child, "WhatsApp.Root.exe"), child := ProcInfo(root, "msedgewebview2.exe")]
    requires q in {[root], [child]}
    ensures QueueAfter(t, [root, child], q, n) in {[root], [child]}
    decreases n
  {
    if n > 0 {
      var keys := [root, child];
      var next := q[1..] + Children(t, keys, q[0]);
      if q == [root] {
        assert Children(t, keys[1..], root) == [child];
        assert Children(t, keys, root) == [child];
        assert next == [child];
      } else {
        assert Children(t, keys[1..], child) == [];
        assert Children(t, keys, child) == [root];
        assert next == [root];
      }
      CycleQueueAlternates(t, root, child, next, n - 1);
    }
  }

  /** The children of `current` not enqueued before, in `keys` order. */
  function FreshChildren(t: Table, keys: seq<Pid>, current: Pid, seen: seq<Pid>): (cs: seq<Pid>)
    requires forall k :: k in keys ==> k in t
    ensures forall c :: c in cs <==> c in keys && t[c].parentPid == current && c != current && c !in seen
    ensures Distinct(keys) ==> Distinct(cs)
  {
    if |keys| == 0 then []
    else
      var rest := FreshChildren(t, keys[1..], current, seen);
      assert forall c :: c in keys[1..] ==> c in keys;
      if t[keys[0]].parentPid == current && keys[0] != current && keys[0] !in seen then [keys[0]] + rest
      else rest
  }

  /** Appending pids that are new and pairwise different keeps a list free
      of duplicates. */
  lemma AppendFreshDistinct(enq: seq<Pid>, kids: seq<Pid>)
    requires Distinct(enq) && Distinct(kids)
    requires forall c :: c in kids ==> c !in enq
    ensures Distinct(enq + kids)
  {
    var s := enq + kids;
    forall i, j | 0 <= i < j < |s| ensures s[i] != s[j] {
      if j < |enq| {
        assert s[i] == enq[i] && s[j] == enq[j];
      } else if i < |enq| {
        assert s[i] == enq[i] && s[i] in enq;
        assert s[j] == kids[j - |enq|] && s[j] in kids;
      } else {
        assert s[i] == kids[i - |enq|] && s[j] == kids[j - |enq|];
      }
    }
  }

  /** What the corrected walk knows after `popped` of the pids enqueued so
      far have been output: the walk's invariant without the depth witness,
      which only the source's walk needs. */
  ghost predicate SeenState(t: Table, root: Pid, enq: seq<Pid>, popped: nat, parentAt: seq<nat>)
  {
    && 0 < |enq| && enq[0] == root && popped <= |enq|
    && (forall p :: p in enq ==> p in t)
    && Distinct(enq)
    && ParentWitness(t, enq, popped, parentAt)
    && ChildrenEnqueued(t, enq, popped)
  }

  /** One iteration of the corrected walk: output the head of the queue and
      enqueue its children that were never enqueued. */
  lemma SeenAdvance(t: Table, keys: seq<Pid>, root: Pid, result: seq<Pid>, queue: seq<Pid>,
                    parentAt: seq<nat>, kids: seq<Pid>)
    returns (parentAt': seq<nat>)
    requires Distinct(keys)
    requires forall k :: k in keys <==> k in t
    requires |queue| > 0
    requires SeenState(t, root, result + queue, |result|, parentAt)
    requires kids == FreshChildren(t, keys, queue[0], result + queue)
    ensures SeenState(t, root, (result + queue) + kids, |result| + 1, parentAt')
    ensures (result + [queue[0]]) + (queue[1..] + kids) == (result + queue) + kids
    ensures t.Keys - Elems((result + queue) + kids) <= t.Keys - Elems(result + queue)
    ensures |kids| > 0 ==> t.Keys - Elems((result + queue) + kids) < t.Keys - Elems(result + queue)
  {
    var enq := result + queue;
    assert queue[0] == enq[|result|];
    ParentStep(t, enq, |result|, parentAt, kids);
    ChildrenStep(t, enq, |result|, kids);
    AppendFreshDistinct(enq, kids);
    UnvisitedShrinks(t, enq, kids);
    PopAndPush(result, queue, kids);
    parentAt' := parentAt + seq(|kids|, _ => |result|);
  }

  /** Once the corrected walk's queue is empty it has a complete walk. */
  lemma SeenDone(t: Table, root: Pid, enq: seq<Pid>, parentAt: seq<nat>)
    requires SeenState(t, root, enq, |enq|, parentAt)
    ensures IsTreeWalk(t, root, enq)
  {
    assert enq[..|enq|] == enq;
    forall i | 0 < i < |enq|
      ensures t[enq[i]].parentPid in enq[..i]
    {
      assert enq[..i][parentAt[i]] == enq[parentAt[i]];
    }
  }

  /** The breadth-first walk as evidently intended: a pid already enqueued is
      not enqueued again, so the walk ends on every table, parent cycles
      included, and is still a complete tree walk. */
  method WalkTreeSeen(t: Table, keys: seq<Pid>, root: Pid) returns (result: seq<Pid>)
    requires root in t
    requires Distinct(keys)
    requires forall k :: k in keys <==> k in t
    ensures IsTreeWalk(t, root, result)
    ensures forall p :: p in result ==> p in t
  {
    result := [];
    var queue := [root];
    ghost var parentAt: seq<nat> := [0];
    while |queue| > 0
      invariant SeenState(t, root, result + queue, |result|, parentAt)
      decreases t.Keys - Elems(result + queue), |queue|
    {
      var current := queue[0];
      var kids := FreshChildren(t, keys, current, result + queue);
      parentAt := SeenAdvance(t, keys, root, result, queue, parentAt, kids);
      result, queue := result + [current], queue[1..] + kids;
    }
    assert result + queue == result;
    SeenDone(t, root, result, parentAt);
  }

  /** `FindProcessTree`: the root is the last record matching `rootName`
      ignoring case, and the result is the root followed by all of its
      descendants. An enumeration error never yields a partial tree. */
  method FindProcessTree(listing: Listing, rootName: string) returns (r: Result<seq<Pid>, ProcError>)
    requires var root := RootPid(listing.records, rootName);
             listing.end == NoMoreFiles && root != 0 ==> !OnParentCycle(BuildTable(listing.records), root)
    ensures FirstCallFailed(listing) || listing.end == EnumError ==> r == Err(EnumerationFailed)
    ensures r == Err(NotFound) <==>
              !FirstCallFailed(listing) && listing.end == NoMoreFiles && RootPid(listing.records, rootName) == 0
    ensures r.Ok? <==>
              !FirstCallFailed(listing) && listing.end == NoMoreFiles && RootPid(listing.records, rootName) != 0
    ensures r.Ok? ==> IsTreeWalk(BuildTable(listing.records), RootPid(listing.records, rootName), r.value)
    ensures r.Ok? ==> forall p :: p in r.value ==> exists i :: 0 <= i < |listing.records| && listing.records[i].pid == p
  {
    if FirstCallFailed(listing) || listing.end == EnumError {
      return Err(EnumerationFailed);
    }
    var root := RootPid(listing.records, rootName);
    if root == 0 {
      return Err(NotFound);
    }
    var t := BuildTable(listing.records);
    BuildTableKeys(listing.records);
    var i :| 0 <= i < |listing.records| && listing.records[i].pid == root;
    var pids := WalkTree(t, KeyOrder(listing.records), root);
    return Ok(pids);
  }

  // ---------------------------------------------------------------------
  // Properties of the resolution

  /** Everything a parents-first walk lists lies in any set closed under
      children that contains the root. */
  lemma {:induction false} ParentsFirstWithinClosure(t: Table, root: Pid, a: seq<Pid>, b: seq<Pid>, i: nat)
    requires ParentsFirst(t, root, a)
    requires root in b && ClosedUnderChildren(t, b)
    requires i < |a|
    ensures a[i] in b
    decreases i
  {
    if i > 0 {
      var p := t[a[i]].parentPid;
      var j :| 0 <= j < i && a[..i][j] == p;
      ParentsFirstWithinClosure(t, root, a, b, j);
    }
  }

  /** The pids resolved for a root do not depend on the order in which
      children are visited: any two complete walks list the same pids. */
  lemma TreeWalkElemsUnique(t: Table, root: Pid, a: seq<Pid>, b: seq<Pid>)
    requires IsTreeWalk(t, root, a) && IsTreeWalk(t, root, b)
    ensures Elems(a) == Elems(b)
  {
    forall i | 0 <= i < |a| ensures a[i] in b {
      ParentsFirstWithinClosure(t, root, a, b, i);
    }
    forall i | 0 <= i < |b| ensures b[i] in a {
      ParentsFirstWithinClosure(t, root, b, a, i);
    }
  }

  /** The three-process chain 100 -> 101 -> 102 resolves to exactly those
      three pids, whatever the visiting order. */
  lemma ChainResolvesToAllThree(s: seq<Pid>)
    requires IsTreeWalk(map[100 := ProcInfo(0, "Root.exe"), 101 := ProcInfo(100, "child.exe"),
                            102 := ProcInfo(101, "grandchild.exe")], 100, s)
    ensures Elems(s) == {100, 101, 102}
  {
    var t := map[100 := ProcInfo(0, "Root.exe"), 101 := ProcInfo(100, "child.exe"),
                 102 := ProcInfo(101, "grandchild.exe")];
    var w: seq<Pid> := [100, 101, 102];
    assert w[..1] == [100] && w[..2] == [100, 101];
    assert IsTreeWalk(t, 100, w);
    TreeWalkElemsUnique(t, 100, s, w);
  }
}
