/**
  What holds of every run of the bridge: one worker at a time, ownership of the file and of the
  capture process, when a delivered scan is fresh, and how much work a worker can do.
 */
module BridgeRuns {
  import opened Base
  import opened Bridge

  // ---- Events -----------------------------------------------------------------------------

  /** Line 77 starts the thread of worker `w`. */
  predicate Spawns(s: State, e: Step, w: nat) { e.Main? && s.main.Spawn? && |s.workers| == w }

  /** Line 81 withdraws the request. */
  predicate Withdraws(s: State, e: Step) { e.Main? && s.main.Withdraw? }

  /** Line 83 cancels: the generation moves past the one of the worker. */
  predicate Cancels(s: State, e: Step) { e.Main? && s.main.BumpCancel? }

  predicate At(s: State, e: Step, w: nat) { e.Thread? && e.w == w && w < |s.workers| }

  /** Line 33 starts a capture process for worker `w`. */
  predicate Captures(s: State, e: Step, w: nat) { At(s, e, w) && s.workers[w].pc.Begin? && e.ok }

  /** The second test of line 54 lets worker `w` go on. */
  predicate PassesGate(s: State, e: Step, w: nat) { At(s, e, w) && s.workers[w].pc.GateWanted? && s.wanted }

  /** Line 63 hands a scan to the socket. */
  predicate Delivers(s: State, e: Step, w: nat) { At(s, e, w) && s.workers[w].pc.Delivering? }

  predicate DeliversAny(s: State, e: Step) { e.Thread? && Delivers(s, e, e.w) }

  // ---- Mutual exclusion and ownership -----------------------------------------------------

  /** `capturing` is the lock: set exactly while a worker is reserved or live, and never more than one is live. */
  lemma CapturingIsALock(ss: seq<State>, es: seq<Step>, k: nat)
    requires IsRun(ss, es) && k <= |es|
    ensures forall i, j | 0 <= i < j < |ss[k].workers| :: !(ss[k].workers[i].Live() && ss[k].workers[j].Live())
    ensures ss[k].capturing <==>
            (ss[k].main.BumpSpawn? || ss[k].main.Spawn?
             || exists w | 0 <= w < |ss[k].workers| :: ss[k].workers[w].Live())
    ensures ss[k].main.BumpSpawn? || ss[k].main.Spawn? ==>
              forall w | 0 <= w < |ss[k].workers| :: !ss[k].workers[w].Live()
  {
    RunKeepsInv(ss, es, k);
  }

  /**
    A delivered scan was written by the delivering worker's current attempt, is tall enough, and is what
    last.pgm holds.
   */
  lemma DeliversItsOwnScan(ss: seq<State>, es: seq<Step>, k: nat, w: nat)
    requires IsRun(ss, es) && k < |es| && Delivers(ss[k], es[k], w)
    ensures ss[k].workers[w].pc.img.writer == Child(w, ss[k].workers[w].attempt)
    ensures ss[k].workers[w].pc.img.rows >= 80 && ss[k].last == Some(ss[k].workers[w].pc.img)
  {
    RunKeepsInv(ss, es, k);
    assert LocalWorker(ss[k].workers[w], w);
  }

  /** The file a worker moves away or deletes is its own, and it is gone before `capturing` drops. */
  lemma RemovesOnlyItsOwnFile(ss: seq<State>, es: seq<Step>, k: nat, w: nat)
    requires IsRun(ss, es) && k < |es| && At(ss[k], es[k], w) && Enabled(ss[k], es[k])
    requires ss[k].workers[w].pc.Unlinking? || ss[k].workers[w].pc.Replacing? || ss[k].workers[w].pc.Dropping?
    ensures ss[k].file.Some? ==> ss[k].file.value.writer.worker == w
    ensures ss[k].workers[w].pc.Dropping? ==> ss[k].file.None? && ss[k].proc.None?
  {
    RunKeepsInv(ss, es, k);
  }

  /**
    A signal sent by a cancellation (line 43 to a process group, line 45 to every capture process)
    reaches only a process whose worker is already out of date; a later worker does not exist yet.
   */
  lemma SignalsHitOnlyStaleWorkers(ss: seq<State>, es: seq<Step>, k: nat)
    requires IsRun(ss, es) && k < |es| && es[k].Main? && (ss[k].main.Kill? || ss[k].main.Pkill?)
    ensures ss[k].main.Kill? ==> ss[k].main.victim.worker == |ss[k].workers| - 1
    ensures forall w | 0 <= w < |ss[k].workers| :: ss[k].workers[w].gen < ss[k].gen
    ensures forall w | 0 <= w < |ss[k].workers| && ss[k].workers[w].child.Running? :: w == |ss[k].workers| - 1
  {
    RunKeepsInv(ss, es, k);
    forall w | 0 <= w < |ss[k].workers| && ss[k].workers[w].child.Running?
      ensures w == |ss[k].workers| - 1
    {
      assert LocalWorker(ss[k].workers[w], w);
    }
  }

  // ---- Which processes a cancellation signals ---------------------------------------------

  /**
    A cancellation that polls a recorded process goes on to signal it if and only if it still runs:
    line 43 is reached for it, and then line 45.
   */
  lemma PollSignalsRunning(ss: seq<State>, es: seq<Step>, k: nat, c: Child)
    requires IsRun(ss, es) && k < |es| && es[k].Main? && ss[k].main == Poll(Some(c))
    ensures ss[k + 1].main == Kill(c) <==>
            c.worker < |ss[k].workers| && ss[k].workers[c.worker].attempt == c.attempt
            && ss[k].workers[c.worker].child.Running?
    ensures ss[k + 1].main == Kill(c) || ss[k + 1].main == Idle
  {
    assert ss[k + 1] == MainStep(ss[k]);
  }

  /**
    Line 43 is only reached for a recorded process that runs, or that has ended while its worker still
    sits in the wait for it; and line 45 only after line 43.
   */
  lemma SignalsComeFromPolls(ss: seq<State>, es: seq<Step>, k: nat)
    requires IsRun(ss, es) && k < |es| && ss[k + 1].main != ss[k].main
    ensures ss[k + 1].main.Kill? ==>
              var c := ss[k + 1].main.victim;
              && ss[k].main == Poll(Some(c)) && c.worker < |ss[k].workers|
              && ss[k].workers[c.worker].attempt == c.attempt
              && (ss[k].workers[c.worker].child.Running?
                  || (ss[k].workers[c.worker].child.Exited? && ss[k].workers[c.worker].pc.Waiting?))
    ensures ss[k + 1].main.Pkill? <==> ss[k].main.Kill?
  {
    var s, e := ss[k], es[k];
    assert ss[k + 1] == Apply(s, e);
    if e.Receive? {
      assert HandlerOf(e.sig).Idle? || HandlerOf(e.sig).NeedSet? || HandlerOf(e.sig).NotCheck?;
    }
  }

  /** Between two lines of the main thread it stays where it is. */
  lemma {:induction false} MainStays(ss: seq<State>, es: seq<Step>, i: nat, k: nat)
    requires IsRun(ss, es) && i <= k <= |es| && !ss[i].main.Idle?
    requires forall m | i <= m < k :: !es[m].Main? && !es[m].PollBusy?
    ensures ss[k].main == ss[i].main
    decreases k
  {
    if i < k {
      MainStays(ss, es, i, k - 1);
      assert ss[k] == Apply(ss[k - 1], es[k - 1]);
    }
  }

  /**
    Which captures a cancellation stops.  It reads `proc` at step `i` and polls at step `k`: the last
    worker's process is signalled if and only if the worker had recorded it at `i` (it was waiting for
    it, or about to clear the slot) and at `k` that process, of the same attempt, still runs.
   */
  lemma CancelSignalsCapture(ss: seq<State>, es: seq<Step>, i: nat, k: nat)
    requires IsRun(ss, es) && i < k < |es|
    requires es[i].Main? && ss[i].main.ReadProc? && es[k].Main?
    requires forall m | i < m < k :: !es[m].Main? && !es[m].PollBusy?
    ensures |ss[i].workers| <= |ss[k].workers|
    ensures ss[k + 1].main.Kill? <==>
              && ss[i].workers != []
              && var w := |ss[i].workers| - 1;
                 && (ss[i].workers[w].pc.Waiting? || ss[i].workers[w].pc.Clearing?)
                 && ss[k].workers[w].attempt == ss[i].workers[w].attempt && ss[k].workers[w].child.Running?
    ensures ss[k + 1].main.Kill? ==>
              var w := |ss[i].workers| - 1;
              ss[k + 1].main.victim == Child(w, ss[i].workers[w].attempt)
  {
    RunKeepsInv(ss, es, i);
    assert ss[i + 1] == MainStep(ss[i]);
    MainStays(ss, es, i + 1, k);
    var w := |ss[i].workers| - 1;
    if ss[i].workers != [] { WorkerPersists(ss, es, i, k, w); }
    RecordedProcess(ss[i]);
    if ss[i].proc.Some? {
      PollSignalsRunning(ss, es, k, ss[i].proc.value);
    } else {
      assert ss[k + 1] == MainStep(ss[k]);
    }
  }

  /** `proc` holds the process of the last worker from its line 35 to its line 37. */
  lemma RecordedProcess(s: State)
    requires Inv(s)
    ensures var w := |s.workers| - 1;
            s.proc == if s.workers != [] && (s.workers[w].pc.Waiting? || s.workers[w].pc.Clearing?)
                      then Some(Child(w, s.workers[w].attempt)) else None
  {
  }

  /** Nothing is left behind once the main thread is idle and no worker is live. */
  lemma QuietMeansClean(ss: seq<State>, es: seq<Step>, k: nat)
    requires IsRun(ss, es) && k <= |es|
    requires ss[k].main.Idle? && forall w | 0 <= w < |ss[k].workers| :: !ss[k].workers[w].Live()
    ensures ss[k].proc.None? && ss[k].file.None? && !ss[k].capturing
    ensures forall w | 0 <= w < |ss[k].workers| :: !ss[k].workers[w].child.Running?
  {
    RunKeepsInv(ss, es, k);
    forall w | 0 <= w < |ss[k].workers| ensures !ss[k].workers[w].child.Running? {
      assert LocalWorker(ss[k].workers[w], w);
    }
  }

  // ---- How one step changes the record of one worker

  /** What a step that is not a line of worker `w` leaves of its record. */
  lemma OthersKeepRecord(s: State, e: Step, w: nat)
    requires Enabled(s, e) && w < |s.workers| && !At(s, e, w)
    ensures w < |Apply(s, e).workers|
    ensures var me, me' := s.workers[w], Apply(s, e).workers[w];
            && me'.gen == me.gen && me'.attempt == me.attempt && me'.pc == me.pc
            && (if e.Exit? && e.w == w then me.child.Running? && !me'.child.Running?
                else me'.child.Running? == me.child.Running?)
  {
    if e.Thread? { OtherThreadKeepsRecord(s, e.w, e.ok, w); }
  }

  lemma OtherThreadKeepsRecord(s: State, v: nat, ok: bool, w: nat)
    requires Enabled(s, Thread(v, ok)) && w < |s.workers| && v != w
    ensures |ThreadStep(s, v, ok).workers| == |s.workers| && ThreadStep(s, v, ok).workers[w] == s.workers[w]
  {
  }

  lemma NewcomerBegins(s: State, e: Step, w: nat)
    requires Enabled(s, e) && w >= |s.workers| && w < |Apply(s, e).workers|
    ensures Apply(s, e).workers[w] == Worker(s.gen, 0, Begin, NoProcess) && Apply(s, e).gen == s.gen
    ensures Spawns(s, e, w)
  {
  }

  lemma GenGrows(s: State, e: Step)
    requires Enabled(s, e)
    ensures Apply(s, e).gen >= s.gen
    ensures e.Thread? ==> Apply(s, e).gen == s.gen
  {
  }

  /** The worker's own line: where the gate can be left and entered. */
  lemma OwnLine(s: State, w: nat, ok: bool)
    requires Enabled(s, Thread(w, ok))
    ensures var t := ThreadStep(s, w, ok);
            && |t.workers| == |s.workers| && t.gen == s.gen && t.main == s.main && t.wanted == s.wanted
            && t.workers[w].gen == s.workers[w].gen
            && (t.workers[w].pc.GateWanted? ==>
                  s.workers[w].pc.GateGen? && s.gen == s.workers[w].gen
                  && t.workers[w].attempt == s.workers[w].attempt)
            && (t.workers[w].pc.Reading? ==> s.workers[w].pc.GateWanted? && s.wanted)
            && (Carried(t.workers[w].pc).Some? ==> s.workers[w].pc.Reading? || Carried(s.workers[w].pc).Some?)
            && (t.workers[w].pc.Reading? || Carried(t.workers[w].pc).Some? ==>
                  t.workers[w].attempt == s.workers[w].attempt)
  {
  }

  // ---- Freshness of a delivery ------------------------------------------------------------

  /** A worker's record is only ever changed by its own steps; its generation never changes. */
  lemma {:induction false} WorkerPersists(ss: seq<State>, es: seq<Step>, i: nat, j: nat, w: nat)
    requires IsRun(ss, es) && i <= j <= |es| && w < |ss[i].workers|
    ensures w < |ss[j].workers| && ss[j].workers[w].gen == ss[i].workers[w].gen
    decreases j
  {
    if i < j {
      WorkerPersists(ss, es, i, j - 1, w);
      var s, e := ss[j - 1], es[j - 1];
      assert ss[j] == Apply(s, e);
    }
  }

  /** A withdrawal has hit worker `w`: the generation moved on, or is about to while `wanted` is false. */
  predicate Tainted(s: State, w: nat) {
    w < |s.workers|
    && (!s.workers[w].Live() || s.workers[w].gen < s.gen
        || (!s.wanted && (s.main.CancelCheck? || s.main.BumpCancel?)))
  }

  /** No withdrawal has hit worker `w`. */
  predicate Fresh(s: State, w: nat) {
    w < |s.workers|
    && (s.workers[w].Live() ==> s.gen == s.workers[w].gen && s.wanted)
  }

  lemma TaintedStays(s: State, e: Step, w: nat)
    requires Inv(s) && Enabled(s, e) && Tainted(s, w)
    ensures Tainted(Apply(s, e), w)
  {
    GenGrows(s, e);
    if At(s, e, w) {
      OwnLine(s, w, e.ok);
    } else {
      OthersKeepRecord(s, e, w);
      if s.workers[w].Live() { assert s.HasLive() && w == |s.workers| - 1; }
    }
  }

  lemma FreshStays(s: State, e: Step, w: nat)
    requires Inv(s) && Enabled(s, e) && Fresh(s, w) && !Withdraws(s, e)
    ensures Fresh(Apply(s, e), w)
  {
    if At(s, e, w) {
      OwnLine(s, w, e.ok);
    } else {
      OthersKeepRecord(s, e, w);
      if s.workers[w].Live() { assert s.HasLive() && w == |s.workers| - 1; }
    }
  }

  lemma {:induction false} TaintedFrom(ss: seq<State>, es: seq<Step>, i: nat, j: nat, w: nat)
    requires IsRun(ss, es) && i <= j <= |es| && Tainted(ss[i], w)
    ensures Tainted(ss[j], w)
    decreases j
  {
    if i < j {
      TaintedFrom(ss, es, i, j - 1, w);
      RunKeepsInv(ss, es, j - 1);
      TaintedStays(ss[j - 1], es[j - 1], w);
    }
  }

  lemma {:induction false} FreshFrom(ss: seq<State>, es: seq<Step>, i: nat, j: nat, w: nat)
    requires IsRun(ss, es) && i <= j <= |es| && Fresh(ss[i], w)
    requires forall k | i <= k < j :: !Withdraws(ss[k], es[k])
    ensures Fresh(ss[j], w)
    decreases j
  {
    if i < j {
      FreshFrom(ss, es, i, j - 1, w);
      RunKeepsInv(ss, es, j - 1);
      FreshStays(ss[j - 1], es[j - 1], w);
    }
  }

  /** The request of worker `w`, spawned at step `i`, has been withdrawn before step `k`. */
  ghost predicate Withdrawn(ss: seq<State>, es: seq<Step>, i: nat, k: nat)
    requires k <= |es| <= |ss|
  {
    exists m | i < m < k :: Withdraws(ss[m], es[m])
  }

  /**
    The two conditions of line 54 are the right ones: taken together, at one point of the run, they say
    of a live worker exactly that its request has not been withdrawn since its spawn.
   */
  lemma GuardIsExact(ss: seq<State>, es: seq<Step>, i: nat, k: nat, w: nat)
    requires IsRun(ss, es) && i < k <= |es| && Spawns(ss[i], es[i], w)
    ensures w < |ss[k].workers|
    ensures ss[k].workers[w].Live() ==>
              (!Withdrawn(ss, es, i, k) <==> ss[k].gen == ss[k].workers[w].gen && ss[k].wanted)
    ensures ss[k].workers[w].Live() ==>
              (!Withdrawn(ss, es, i, k) <==>
                 ss[k].gen == ss[k].workers[w].gen && !ss[k].main.CancelCheck? && !ss[k].main.BumpCancel?)
  {
    RunKeepsInv(ss, es, i);
    RunKeepsInv(ss, es, k);
    assert ss[i + 1] == MainStep(ss[i]);
    WorkerPersists(ss, es, i + 1, k, w);
    if Withdrawn(ss, es, i, k) {
      var m :| i < m < k && Withdraws(ss[m], es[m]);
      WorkerPersists(ss, es, i + 1, m, w);
      assert ss[m + 1] == MainStep(ss[m]);
      assert Tainted(ss[m + 1], w);
      TaintedFrom(ss, es, m + 1, k, w);
    } else {
      FreshFrom(ss, es, i + 1, k, w);
    }
  }

  /**
    When a worker passes the gate, its request was withdrawn since its spawn if and only if the
    generation is no longer its own at the second read of line 54.
   */
  lemma GateDetectsWithdrawal(ss: seq<State>, es: seq<Step>, i: nat, j: nat, w: nat)
    requires IsRun(ss, es) && i < j < |es|
    requires Spawns(ss[i], es[i], w) && PassesGate(ss[j], es[j], w)
    ensures Withdrawn(ss, es, i, j) <==> ss[j].gen != ss[j].workers[w].gen
  {
    GuardIsExact(ss, es, i, j, w);
  }

  /**
    A delivery is fresh, its request not withdrawn since the worker's spawn, if and only if both
    conditions of line 54 hold at the delivery itself, where the program does not test them; and also if
    and only if the generation is the worker's own and line 83 is not still to come.
   */
  lemma DeliveryFreshness(ss: seq<State>, es: seq<Step>, i: nat, k: nat, w: nat)
    requires IsRun(ss, es) && i < k < |es| && Spawns(ss[i], es[i], w) && Delivers(ss[k], es[k], w)
    ensures (forall m | i < m < k :: !Withdraws(ss[m], es[m])) <==>
            ss[k].gen == ss[k].workers[w].gen && ss[k].wanted
    ensures (forall m | i < m < k :: !Withdraws(ss[m], es[m])) <==>
            ss[k].gen == ss[k].workers[w].gen && !ss[k].main.CancelCheck? && !ss[k].main.BumpCancel?
  {
    GuardIsExact(ss, es, i, k, w);
  }

  lemma {:induction false} FindSpawn(ss: seq<State>, es: seq<Step>, j: nat, w: nat) returns (i: nat)
    requires IsRun(ss, es) && j <= |es| && w < |ss[j].workers|
    ensures i < j && Spawns(ss[i], es[i], w)
    decreases j
  {
    var s, e := ss[j - 1], es[j - 1];
    assert ss[j] == Apply(s, e);
    if w < |s.workers| {
      i := FindSpawn(ss, es, j - 1, w);
    } else {
      i := j - 1;
    }
  }

  /** Past the gate of line 54 with a usable file. */
  predicate PastGate(s: State, w: nat) {
    w < |s.workers| && (s.workers[w].pc.Reading? || Carried(s.workers[w].pc).Some?)
  }

  lemma PastGateStep(s: State, e: Step, w: nat)
    requires Inv(s) && Enabled(s, e) && PastGate(Apply(s, e), w)
    ensures w < |s.workers| && Apply(s, e).workers[w].attempt == s.workers[w].attempt
    ensures PastGate(s, w) || PassesGate(s, e, w)
  {
    if w >= |s.workers| {
      NewcomerBegins(s, e, w);
    } else if At(s, e, w) {
      OwnLine(s, w, e.ok);
    } else {
      OthersKeepRecord(s, e, w);
    }
  }

  lemma {:induction false} FindGate(ss: seq<State>, es: seq<Step>, k: nat, w: nat) returns (j: nat)
    requires IsRun(ss, es) && k <= |es| && PastGate(ss[k], w)
    ensures j < k && PassesGate(ss[j], es[j], w) && ss[j].workers[w].attempt == ss[k].workers[w].attempt
    decreases k
  {
    RunKeepsInv(ss, es, k - 1);
    PastGateStep(ss[k - 1], es[k - 1], w);
    if PastGate(ss[k - 1], w) {
      j := FindGate(ss, es, k - 1, w);
    } else {
      j := k - 1;
    }
  }

  /** Line 54 found the generation unchanged. */
  predicate ReadsOwnGen(s: State, e: Step, w: nat) {
    At(s, e, w) && s.workers[w].pc.GateGen? && s.gen == s.workers[w].gen
  }

  /** Worker `w` is between the two reads of the gate. */
  predicate BetweenTheReads(s: State, w: nat) { w < |s.workers| && s.workers[w].pc.GateWanted? }

  /** Step `k` comes to that point only by the first read, and stays there in the same attempt. */
  ghost predicate FirstReadLeadsIn(ss: seq<State>, es: seq<Step>, k: nat, w: nat)
    requires k < |es| < |ss|
  {
    BetweenTheReads(ss[k + 1], w) ==>
      && w < |ss[k].workers| && ss[k].workers[w].attempt == ss[k + 1].workers[w].attempt
      && (ReadsOwnGen(ss[k], es[k], w) || BetweenTheReads(ss[k], w))
  }

  lemma {:induction false} FirstReadBefore(ss: seq<State>, es: seq<Step>, k: nat, w: nat) returns (r: nat)
    requires k <= |es| < |ss| && BetweenTheReads(ss[k], w) && !BetweenTheReads(ss[0], w)
    requires forall m | 0 <= m < k :: FirstReadLeadsIn(ss, es, m, w)
    ensures r < k && ReadsOwnGen(ss[r], es[r], w) && ss[r].workers[w].attempt == ss[k].workers[w].attempt
    ensures forall m | r < m <= k :: BetweenTheReads(ss[m], w)
    decreases k
  {
    assert FirstReadLeadsIn(ss, es, k - 1, w);
    if ReadsOwnGen(ss[k - 1], es[k - 1], w) {
      r := k - 1;
    } else {
      r := FirstReadBefore(ss, es, k - 1, w);
    }
  }

  lemma FindFirstRead(ss: seq<State>, es: seq<Step>, k: nat, w: nat) returns (r: nat)
    requires IsRun(ss, es) && k <= |es| && BetweenTheReads(ss[k], w)
    ensures r < k && ReadsOwnGen(ss[r], es[r], w) && ss[r].workers[w].attempt == ss[k].workers[w].attempt
    ensures forall m | r < m <= k :: BetweenTheReads(ss[m], w)
  {
    forall m | 0 <= m < k ensures FirstReadLeadsIn(ss, es, m, w) {
      RunKeepsInv(ss, es, m);
      if BetweenTheReads(ss[m + 1], w) { FirstReadStep(ss[m], es[m], w); }
    }
    r := FirstReadBefore(ss, es, k, w);
  }

  lemma FirstReadStep(s: State, e: Step, w: nat)
    requires Inv(s) && Enabled(s, e) && BetweenTheReads(Apply(s, e), w)
    ensures w < |s.workers| && (ReadsOwnGen(s, e, w) || BetweenTheReads(s, w))
    ensures s.workers[w].attempt == Apply(s, e).workers[w].attempt
  {
    if w >= |s.workers| {
      NewcomerBegins(s, e, w);
    } else if At(s, e, w) {
      OwnLine(s, w, e.ok);
    } else {
      OthersKeepRecord(s, e, w);
    }
  }

  /**
    Every delivery follows a spawn `i`, a first read `r` and a passed gate `j` of the same worker and
    attempt.  The delivery is stale, its request withdrawn in between, if and only if a cancellation fell
    between the two reads or the withdrawal came after the gate; there is no third way, and a delivery
    that finds the conditions of line 54 unchanged is never stale.
   */
  lemma DeliveryIsGated(ss: seq<State>, es: seq<Step>, k: nat, w: nat) returns (i: nat, r: nat, j: nat)
    requires IsRun(ss, es) && k < |es| && Delivers(ss[k], es[k], w)
    ensures i < r < j < k
    ensures Spawns(ss[i], es[i], w) && ReadsOwnGen(ss[r], es[r], w) && PassesGate(ss[j], es[j], w)
    ensures ss[r].workers[w].attempt == ss[j].workers[w].attempt == ss[k].workers[w].attempt
    ensures Withdrawn(ss, es, i, k) <==> !(ss[k].gen == ss[k].workers[w].gen && ss[k].wanted)
    ensures Withdrawn(ss, es, i, k) <==>
            (exists m | r < m < j :: Cancels(ss[m], es[m])) || (exists m | j < m < k :: Withdraws(ss[m], es[m]))
  {
    j := FindGate(ss, es, k, w);
    r := FindFirstRead(ss, es, j, w);
    i := FindSpawn(ss, es, r, w);
    GateDetectsWithdrawal(ss, es, i, j, w);
    assert ss[r + 1] == Apply(ss[r], es[r]);
    assert ss[r + 1].workers[w].gen == ss[r + 1].gen;
    WorkerPersists(ss, es, r + 1, j, w);
    GenMovesByCancel(ss, es, r + 1, j, w);
    assert !Cancels(ss[r], es[r]);
    DeliveryFreshness(ss, es, i, k, w);
    assert Withdrawn(ss, es, i, j) <==> exists m | r < m < j :: Cancels(ss[m], es[m]);
    assert !Withdraws(ss[j], es[j]);
  }

  /** Step `k` moves the generation exactly if it cancels. */
  ghost predicate GenMovesAt(ss: seq<State>, es: seq<Step>, k: nat)
    requires k < |es| < |ss|
  {
    ss[k + 1].gen == ss[k].gen + (if Cancels(ss[k], es[k]) then 1 else 0)
  }

  lemma {:induction false} GenCounts(ss: seq<State>, es: seq<Step>, j: nat, k: nat)
    requires j <= k <= |es| < |ss| && forall m | j <= m < k :: GenMovesAt(ss, es, m)
    ensures ss[k].gen >= ss[j].gen
    ensures ss[k].gen != ss[j].gen <==> exists m | j <= m < k :: Cancels(ss[m], es[m])
    decreases k
  {
    if j < k {
      GenCounts(ss, es, j, k - 1);
      assert GenMovesAt(ss, es, k - 1);
      assert (exists m | j <= m < k :: Cancels(ss[m], es[m])) <==>
             (exists m | j <= m < k - 1 :: Cancels(ss[m], es[m])) || Cancels(ss[k - 1], es[k - 1]);
    }
  }

  /** While a worker stays live, only a cancellation moves the generation. */
  lemma GenMovesByCancel(ss: seq<State>, es: seq<Step>, j: nat, k: nat, w: nat)
    requires IsRun(ss, es) && j <= k <= |es|
    requires forall m | j <= m <= k :: w < |ss[m].workers| && ss[m].workers[w].Live()
    ensures ss[k].gen >= ss[j].gen
    ensures ss[k].gen != ss[j].gen <==> exists m | j <= m < k :: Cancels(ss[m], es[m])
  {
    forall m | j <= m < k ensures GenMovesAt(ss, es, m) {
      RunKeepsInv(ss, es, m);
      assert ss[m].workers[w].Live();
      GenStep(ss[m], es[m], w);
    }
    GenCounts(ss, es, j, k);
  }

  lemma GenStep(s: State, e: Step, w: nat)
    requires Inv(s) && Enabled(s, e) && w < |s.workers| && s.workers[w].Live()
    ensures Apply(s, e).gen == s.gen + (if Cancels(s, e) then 1 else 0)
  {
    assert s.HasLive();
  }

  // ---- A stale delivery -------------------------------------------------------------------

  /** `t` is reached from `s` by `es`, through the states `ss`. */
  ghost predicate Leads(s: State, ss: seq<State>, es: seq<Step>, t: State) {
    && |ss| == |es| + 1 && ss[0] == s && ss[|es|] == t
    && forall k | 0 <= k < |es| :: Enabled(ss[k], es[k]) && ss[k + 1] == Apply(ss[k], es[k])
  }

  lemma LeadsOn(s: State, ss: seq<State>, es: seq<Step>, t: State, ss': seq<State>, es': seq<Step>, u: State)
    requires Leads(s, ss, es, t) && Leads(t, ss', es', u)
    ensures Leads(s, ss + ss'[1..], es + es', u)
  {
    var all, steps := ss + ss'[1..], es + es';
    forall k | 0 <= k < |steps| ensures Enabled(all[k], steps[k]) && all[k + 1] == Apply(all[k], steps[k]) {
      if k >= |es| { assert all[k] == ss'[k - |es|] && all[k + 1] == ss'[k - |es| + 1]; }
    }
  }

  /** Worker 0 waits between the two reads of the gate, with a complete scan of its own. */
  function BetweenReads(wanted: bool, gen: nat): State {
    State(None, true, wanted, gen, Idle, [Worker(1, 0, GateWanted(true), Exited(0))],
          Some(Scan(Child(0, 0), 300)), None)
  }

  /** Worker 0 is about to deliver, its image moved away. */
  function AboutToDeliver(wanted: bool, gen: nat): State {
    State(None, true, wanted, gen, Idle, [Worker(1, 0, Delivering(Scan(Child(0, 0), 300)), Exited(0))],
          None, Some(Scan(Child(0, 0), 300)))
  }

  lemma RequestRuns() returns (ss: seq<State>, es: seq<Step>)
    ensures Leads(Init(), ss, es, State(None, true, true, 1, Idle, [Worker(1, 0, Begin, NoProcess)], None, None))
    ensures |es| == 6 && Spawns(ss[5], es[5], 0)
  {
    var s1 := Apply(Init(), Receive(VerifyFingerSelected));
    var s2 := Apply(s1, Main);
    var s3 := Apply(s2, Main);
    var s4 := Apply(s3, Main);
    var s5 := Apply(s4, Main);
    ss := [Init(), s1, s2, s3, s4, s5, Apply(s5, Main)];
    es := [Receive(VerifyFingerSelected), Main, Main, Main, Main, Main];
  }

  /** The capture process of worker 0 has ended, its scan in the file. */
  function Captured(): State {
    State(Some(Child(0, 0)), true, true, 1, Idle, [Worker(1, 0, Waiting, Exited(0))],
          Some(Scan(Child(0, 0), 300)), None)
  }

  lemma CaptureRuns() returns (ss: seq<State>, es: seq<Step>)
    ensures Leads(State(None, true, true, 1, Idle, [Worker(1, 0, Begin, NoProcess)], None, None), ss, es, Captured())
    ensures |es| == 4
  {
    var t := Thread(0, true);
    var s0 := State(None, true, true, 1, Idle, [Worker(1, 0, Begin, NoProcess)], None, None);
    var s1 := State(None, true, true, 1, Idle, [Worker(1, 0, Started, Running(false))], None, None);
    var s2 := State(Some(Child(0, 0)), true, true, 1, Idle, [Worker(1, 0, Waiting, Running(false))], None, None);
    var s3 := Captured().(workers := [Worker(1, 0, Waiting, Running(true))]);
    ss := [s0, s1, s2, s3, Captured()];
    es := [t, t, Write(0, 300), Exit(0, 0)];
  }

  lemma FirstReadRuns() returns (ss: seq<State>, es: seq<Step>)
    ensures Leads(Captured(), ss, es, BetweenReads(true, 1))
    ensures |es| == 3 && ReadsOwnGen(ss[2], es[2], 0)
  {
    var t := Thread(0, true);
    var s1 := Captured().(workers := [Worker(1, 0, Clearing(true), Exited(0))]);
    var s2 := s1.(proc := None, workers := [Worker(1, 0, GateGen(true), Exited(0))]);
    ss := [Captured(), s1, s2, BetweenReads(true, 1)];
    es := [t, t, t];
  }

  lemma GateRuns(gen: nat) returns (ss: seq<State>, es: seq<Step>)
    ensures Leads(BetweenReads(true, gen), ss, es, AboutToDeliver(true, gen))
    ensures |es| == 4 && PassesGate(ss[0], es[0], 0)
  {
    var sa, ea := SecondReadRuns(gen);
    var sb, eb := ImageRuns(gen);
    LeadsOn(BetweenReads(true, gen), sa, ea, sb[0], sb, eb, AboutToDeliver(true, gen));
    ss, es := sa + sb[1..], ea + eb;
  }

  /** Worker 0 has read its image. */
  function ImageRead(gen: nat): State {
    BetweenReads(true, gen).(workers := [Worker(1, 0, Replacing(Scan(Child(0, 0), 300)), Exited(0))])
  }

  lemma SecondReadRuns(gen: nat) returns (ss: seq<State>, es: seq<Step>)
    ensures Leads(BetweenReads(true, gen), ss, es, ImageRead(gen))
    ensures |es| == 2 && PassesGate(ss[0], es[0], 0)
  {
    var s := BetweenReads(true, gen);
    ss := [s, s.(workers := [Worker(1, 0, Reading, Exited(0))]), ImageRead(gen)];
    es := [Thread(0, true), Thread(0, true)];
  }

  lemma ImageRuns(gen: nat) returns (ss: seq<State>, es: seq<Step>)
    ensures Leads(ImageRead(gen), ss, es, AboutToDeliver(true, gen)) && |es| == 2
  {
    var own := Scan(Child(0, 0), 300);
    var judging := [Worker(1, 0, Judging(own), Exited(0))];
    ss := [ImageRead(gen), AboutToDeliver(true, gen).(workers := judging), AboutToDeliver(true, gen)];
    es := [Thread(0, true), Thread(0, true)];
  }

  /** From any state in which a worker is busy and the main thread idle: a withdrawal from start to end. */
  lemma WithdrawRun(s: State) returns (ss: seq<State>, es: seq<Step>)
    requires s.main.Idle? && s.wanted && s.capturing && s.proc.None?
    ensures Leads(s, ss, es, s.(wanted := false, gen := s.gen + 1))
    ensures |es| == 7 && Withdraws(ss[2], es[2])
  {
    var sa, ea := WithdrawHalf(s);
    var sb, eb := CancelHalf(s.(wanted := false));
    LeadsOn(s, sa, ea, sb[0], sb, eb, s.(wanted := false, gen := s.gen + 1));
    ss, es := sa + sb[1..], ea + eb;
  }

  lemma WithdrawHalf(s: State) returns (ss: seq<State>, es: seq<Step>)
    requires s.main.Idle? && s.wanted
    ensures Leads(s, ss, es, s.(wanted := false, main := CancelCheck))
    ensures |es| == 3 && Withdraws(ss[2], es[2])
  {
    ss := [s, s.(main := NotCheck), s.(main := Withdraw), s.(wanted := false, main := CancelCheck)];
    es := [Receive(PropertiesChanged(DEV_IFACE, map["finger-needed" := false])), Main, Main];
  }

  lemma CancelHalf(s: State) returns (ss: seq<State>, es: seq<Step>)
    requires s.main.Idle? && s.capturing && s.proc.None?
    ensures Leads(s.(main := CancelCheck), ss, es, s.(gen := s.gen + 1))
    ensures |es| == 4 && Cancels(ss[1], es[1]) && es[3].Main? && ss[3].main == Poll(None)
  {
    var s' := s.(gen := s.gen + 1);
    ss := [s.(main := CancelCheck), s.(main := BumpCancel), s'.(main := ReadProc), s'.(main := Poll(None)), s'];
    es := [Main, Main, Main, Main];
  }

  /** A request while a worker is busy. */
  lemma RequestAgainRun(s: State) returns (ss: seq<State>, es: seq<Step>)
    requires s.main.Idle? && s.capturing
    ensures Leads(s, ss, es, s.(wanted := true)) && |es| == 3
  {
    ss := [s, s.(main := NeedSet), s.(wanted := true, main := NeedCheck), s.(wanted := true)];
    es := [Receive(VerifyFingerSelected), Main, Main];
  }

  /** From the start to the point between the two reads of the gate. */
  lemma GateReached() returns (ss: seq<State>, es: seq<Step>)
    ensures Leads(Init(), ss, es, BetweenReads(true, 1)) && |es| == 13
    ensures Spawns(ss[5], es[5], 0) && ReadsOwnGen(ss[12], es[12], 0)
  {
    var sa, ea := RequestRuns();
    var sb, eb := CaptureRuns();
    var sc, ec := FirstReadRuns();
    LeadsOn(Init(), sa, ea, sb[0], sb, eb, sc[0]);
    ss, es := sa + sb[1..], ea + eb;
    LeadsOn(Init(), ss, es, sc[0], sc, ec, BetweenReads(true, 1));
    ss, es := ss + sc[1..], es + ec;
    assert ss[12] == sc[2];
  }

  /**
    A cancellation that comes between lines 33 and 35 signals nothing: in the end the main thread is idle
    again, the request withdrawn, and the capture process still runs.
   */
  lemma CancelMissesUnrecorded() returns (ss: seq<State>, es: seq<Step>)
    ensures IsRun(ss, es) && |es| == 14 && Captures(ss[6], es[6], 0) && Withdraws(ss[9], es[9])
    ensures Cancels(ss[11], es[11]) && es[13].Main? && ss[13].main == Poll(None)
    ensures ss[14].main.Idle? && !ss[14].wanted && ss[14].workers != [] && ss[14].workers[0].child.Running?
  {
    var s := State(None, true, true, 1, Idle, [Worker(1, 0, Started, Running(false))], None, None);
    var sa, ea := RequestRuns();
    var sb, eb := [sa[6], s], [Thread(0, true)];
    LeadsOn(Init(), sa, ea, sa[6], sb, eb, s);
    ss, es := sa + sb[1..], ea + eb;
    var sc, ec := WithdrawHalf(s);
    var sd, ed := CancelHalf(s.(wanted := false));
    LeadsOn(Init(), ss, es, s, sc, ec, sd[0]);
    ss, es := ss + sc[1..], es + ec;
    assert ss[9] == sc[2];
    LeadsOn(Init(), ss, es, sd[0], sd, ed, s.(wanted := false, gen := 2));
    ss, es := ss + sd[1..], es + ed;
    assert ss[11] == sd[1] && ss[13] == sd[3] && ss[14] == sd[4];
  }

  /** A withdrawal and a new request, while a worker is busy. */
  lemma OtherRequestRun(s: State) returns (ss: seq<State>, es: seq<Step>)
    requires s.main.Idle? && s.wanted && s.capturing && s.proc.None?
    ensures Leads(s, ss, es, s.(gen := s.gen + 1))
    ensures |es| == 10 && Withdraws(ss[2], es[2])
  {
    var sa, ea := WithdrawRun(s);
    var sb, eb := RequestAgainRun(s.(wanted := false, gen := s.gen + 1));
    LeadsOn(s, sa, ea, sb[0], sb, eb, s.(gen := s.gen + 1));
    ss, es := sa + sb[1..], ea + eb;
  }

  /** The delivery ends either run. */
  lemma LastStep(ss: seq<State>, es: seq<Step>) returns (ss': seq<State>, es': seq<Step>)
    requires Leads(Init(), ss, es, AboutToDeliver(true, 2))
    ensures IsRun(ss', es') && ss <= ss' && es' == es + [Thread(0, true)]
    ensures Delivers(ss[|es|], es'[|es|], 0) && ss[|es|].wanted && ss[|es|].main.Idle?
  {
    var t := Thread(0, true);
    ss', es' := ss + [Apply(AboutToDeliver(true, 2), t)], es + [t];
  }

  /**
    A stale delivery to the next request, through the gate: the withdrawal and the new request both fall
    between the two reads of line 54.
   */
  lemma StaleDeliveryExists() returns (ss: seq<State>, es: seq<Step>)
    ensures IsRun(ss, es) && |es| == 28
    ensures Spawns(ss[5], es[5], 0) && ReadsOwnGen(ss[12], es[12], 0) && PassesGate(ss[23], es[23], 0)
    ensures Withdraws(ss[15], es[15]) && Delivers(ss[27], es[27], 0) && ss[27].wanted && ss[27].main.Idle?
  {
    var sa, ea := GateReached();
    var sb, eb := OtherRequestRun(BetweenReads(true, 1));
    var sc, ec := GateRuns(2);
    LeadsOn(Init(), sa, ea, sb[0], sb, eb, sc[0]);
    ss, es := sa + sb[1..], ea + eb;
    LeadsOn(Init(), ss, es, sc[0], sc, ec, AboutToDeliver(true, 2));
    assert ss[15] == sb[2];
    ss, es := ss + sc[1..], es + ec;
    assert ss[23] == sc[0];
    ss, es := LastStep(ss, es);
  }

  /**
    A stale delivery to the next request, past the gate: both reads of line 54 find the request standing,
    and the withdrawal and the new request fall between the gate and the delivery.
   */
  lemma LateStaleDeliveryExists() returns (ss: seq<State>, es: seq<Step>)
    ensures IsRun(ss, es) && |es| == 28
    ensures Spawns(ss[5], es[5], 0) && PassesGate(ss[13], es[13], 0) && ss[13].gen == ss[13].workers[0].gen
    ensures Withdraws(ss[19], es[19]) && Delivers(ss[27], es[27], 0) && ss[27].wanted && ss[27].main.Idle?
  {
    var sa, ea := GateReached();
    var sb, eb := GateRuns(1);
    var sc, ec := OtherRequestRun(AboutToDeliver(true, 1));
    LeadsOn(Init(), sa, ea, sb[0], sb, eb, sc[0]);
    ss, es := sa + sb[1..], ea + eb;
    LeadsOn(Init(), ss, es, sc[0], sc, ec, AboutToDeliver(true, 2));
    assert ss[13] == sb[0];
    ss, es := ss + sc[1..], es + ec;
    assert ss[19] == sc[2];
    ss, es := LastStep(ss, es);
  }

  // ---- How much a worker can do -----------------------------------------------------------

  /** The events of one worker, as tests on steps. */
  function CapturesOf(w: nat): (State, Step) -> bool { (s: State, e: Step) => Captures(s, e, w) }

  function DeliveriesOf(w: nat): (State, Step) -> bool { (s: State, e: Step) => Delivers(s, e, w) }

  function AnyDelivery(): (State, Step) -> bool { (s: State, e: Step) => DeliversAny(s, e) }

  function AdvancesOf(w: nat): (State, Step) -> bool { (s: State, e: Step) => Advances(s, e, w) }

  /** How many of the steps from `lo` to `hi` satisfy `p`. */
  ghost function Count(ss: seq<State>, es: seq<Step>, lo: nat, hi: nat, p: (State, Step) -> bool): nat
    requires lo <= hi <= |es| <= |ss|
  {
    if lo == hi then 0
    else Count(ss, es, lo, hi - 1, p) + (if p(ss[hi - 1], es[hi - 1]) then 1 else 0)
  }

  /** Every step that satisfies `p` uses up one of the budget, and no step adds to it. */
  ghost predicate Bounds(budget: State -> nat, p: (State, Step) -> bool) {
    forall s, e | Inv(s) && Enabled(s, e) ::
      budget(Apply(s, e)) + (if p(s, e) then 1 else 0) <= budget(s)
  }

  /** Step `k` pays for itself. */
  ghost predicate Pays(ss: seq<State>, es: seq<Step>, k: nat, budget: State -> nat, p: (State, Step) -> bool)
    requires k < |es| < |ss|
  {
    budget(ss[k + 1]) + (if p(ss[k], es[k]) then 1 else 0) <= budget(ss[k])
  }

  lemma StepPays(ss: seq<State>, es: seq<Step>, k: nat, budget: State -> nat, p: (State, Step) -> bool)
    requires IsRun(ss, es) && k < |es| && Bounds(budget, p)
    ensures Pays(ss, es, k, budget, p)
  {
    RunKeepsInv(ss, es, k);
    var s, e := ss[k], es[k];
    assert Inv(s) && Enabled(s, e) && ss[k + 1] == Apply(s, e);
    assert budget(Apply(s, e)) + (if p(s, e) then 1 else 0) <= budget(s);
  }

  lemma {:induction false} PaidCount(ss: seq<State>, es: seq<Step>, lo: nat, hi: nat,
                                     budget: State -> nat, p: (State, Step) -> bool)
    requires lo <= hi <= |es| < |ss| && forall k | lo <= k < hi :: Pays(ss, es, k, budget, p)
    ensures Count(ss, es, lo, hi, p) + budget(ss[hi]) <= budget(ss[lo])
    decreases hi
  {
    if lo < hi {
      PaidCount(ss, es, lo, hi - 1, budget, p);
      assert Pays(ss, es, hi - 1, budget, p);
    }
  }

  lemma BudgetBoundsCount(ss: seq<State>, es: seq<Step>, lo: nat, hi: nat,
                          budget: State -> nat, p: (State, Step) -> bool)
    requires IsRun(ss, es) && lo <= hi <= |es| && Bounds(budget, p)
    ensures Count(ss, es, lo, hi, p) + budget(ss[hi]) <= budget(ss[lo])
  {
    forall k | lo <= k < hi ensures Pays(ss, es, k, budget, p) {
      StepPays(ss, es, k, budget, p);
    }
    PaidCount(ss, es, lo, hi, budget, p);
  }

  /** Rounds of the attempt loop still to start. */
  function CaptureBudget(s: State, w: nat): nat {
    if w >= |s.workers| then 2
    else
      var me := s.workers[w];
      if me.attempt > 1 || me.pc.Unlinking? || me.pc.Dropping? || me.pc.Done? || me.pc.Delivering? then 0
      else if me.pc.Begin? then 2 - me.attempt
      else 1 - me.attempt
  }

  lemma CaptureBudgetStep(s: State, e: Step, w: nat)
    requires Inv(s) && Enabled(s, e)
    ensures CaptureBudget(Apply(s, e), w) + (if Captures(s, e, w) then 1 else 0) <= CaptureBudget(s, w)
  {
    if w >= |s.workers| {
      if w < |Apply(s, e).workers| { NewcomerBegins(s, e, w); }
    } else if !At(s, e, w) {
      OthersKeepRecord(s, e, w);
    } else {
      ThreadFrame(s, w, e.ok);
    }
  }

  /** A worker runs at most two captures. */
  lemma TwoCapturesAtMost(ss: seq<State>, es: seq<Step>, w: nat)
    requires IsRun(ss, es)
    ensures Count(ss, es, 0, |es|, CapturesOf(w)) <= 2
  {
    var p := CapturesOf(w);
    var budget := (s: State) => CaptureBudget(s, w);
    forall s, e | Inv(s) && Enabled(s, e)
      ensures budget(Apply(s, e)) + (if p(s, e) then 1 else 0) <= budget(s)
    {
      CaptureBudgetStep(s, e, w);
    }
    BudgetBoundsCount(ss, es, 0, |es|, budget, p);
  }

  /** The same for a worker whose generation has been left behind. */
  function StaleBudget(s: State, w: nat): nat {
    if w >= |s.workers| || s.workers[w].gen >= s.gen then CaptureBudget(s, w)
    else
      var me := s.workers[w];
      if me.pc.Begin? then 1
      else if me.attempt == 0 && (me.pc.GateWanted? || me.pc.Reading? || me.pc.Replacing? || me.pc.Judging?) then 1
      else 0
  }

  lemma StaleBudgetOwnLine(s: State, w: nat, ok: bool)
    requires Inv(s) && Enabled(s, Thread(w, ok)) && s.workers[w].gen < s.gen
    ensures var t := ThreadStep(s, w, ok);
            StaleBudget(t, w) + (if Captures(s, Thread(w, ok), w) then 1 else 0) <= StaleBudget(s, w)
  {
    OwnLine(s, w, ok);
    assert LocalWorker(s.workers[w], w);
  }

  lemma StaleWithinCapture(s: State, w: nat)
    requires w < |s.workers| && LocalWorker(s.workers[w], w)
    ensures StaleBudget(s, w) <= CaptureBudget(s, w)
  {
  }

  lemma StaleBudgetStep(s: State, e: Step, w: nat)
    requires Inv(s) && Enabled(s, e)
    ensures StaleBudget(Apply(s, e), w) + (if Captures(s, e, w) then 1 else 0) <= StaleBudget(s, w)
  {
    GenGrows(s, e);
    if w >= |s.workers| {
      if w < |Apply(s, e).workers| { NewcomerBegins(s, e, w); }
    } else {
      assert LocalWorker(s.workers[w], w);
      if !At(s, e, w) {
        OthersKeepRecord(s, e, w);
        StaleWithinCapture(s, w);
      } else if s.workers[w].gen < s.gen {
        StaleBudgetOwnLine(s, w, e.ok);
      } else {
        OwnLine(s, w, e.ok);
        CaptureBudgetStep(s, e, w);
      }
    }
  }

  /** After its cancellation a worker starts at most one more capture. */
  lemma OneCaptureAfterCancel(ss: seq<State>, es: seq<Step>, k: nat, w: nat)
    requires IsRun(ss, es) && k <= |es| && w < |ss[k].workers| && ss[k].workers[w].gen < ss[k].gen
    ensures Count(ss, es, k, |es|, CapturesOf(w)) <= 1
  {
    var p := CapturesOf(w);
    var budget := (s: State) => StaleBudget(s, w);
    forall s, e | Inv(s) && Enabled(s, e)
      ensures budget(Apply(s, e)) + (if p(s, e) then 1 else 0) <= budget(s)
    {
      StaleBudgetStep(s, e, w);
    }
    BudgetBoundsCount(ss, es, k, |es|, budget, p);
  }

  /** The live worker can still deliver. */
  predicate CanDeliver(s: State) {
    s.HasLive() && !s.workers[|s.workers| - 1].pc.Unlinking? && !s.workers[|s.workers| - 1].pc.Dropping?
  }

  lemma DeliverableStep(s: State, e: Step)
    requires Inv(s) && Enabled(s, e)
    ensures var t := Apply(s, e);
            && |t.workers| >= |s.workers|
            && (if CanDeliver(t) then 1 else 0) + (if DeliversAny(s, e) then 1 else 0)
               <= (if CanDeliver(s) then 1 else 0) + |t.workers| - |s.workers|
  {
    if s.workers != [] {
      var w := |s.workers| - 1;
      if At(s, e, w) { ThreadFrame(s, w, e.ok); } else { OthersKeepRecord(s, e, w); }
    }
  }

  /** Up to any point of a run there were at most as many deliveries as spawned workers. */
  lemma {:induction false} DeliveriesWithinSpawns(ss: seq<State>, es: seq<Step>, k: nat)
    requires IsRun(ss, es) && k <= |es|
    ensures Count(ss, es, 0, k, AnyDelivery()) + (if CanDeliver(ss[k]) then 1 else 0) <= |ss[k].workers|
  {
    if k > 0 {
      DeliveriesWithinSpawns(ss, es, k - 1);
      RunKeepsInv(ss, es, k - 1);
      DeliverableStep(ss[k - 1], es[k - 1]);
    }
  }

  function DeliveryBudget(s: State, w: nat): nat {
    if w >= |s.workers| then 1
    else
      var pc := s.workers[w].pc;
      if pc.Unlinking? || pc.Dropping? || pc.Done? then 0 else 1
  }

  lemma DeliveryBudgetStep(s: State, e: Step, w: nat)
    requires Inv(s) && Enabled(s, e)
    ensures DeliveryBudget(Apply(s, e), w) + (if Delivers(s, e, w) then 1 else 0) <= DeliveryBudget(s, w)
  {
    if w >= |s.workers| {
      if w < |Apply(s, e).workers| { NewcomerBegins(s, e, w); }
    } else if !At(s, e, w) {
      OthersKeepRecord(s, e, w);
    } else {
      ThreadFrame(s, w, e.ok);
    }
  }

  /** A worker delivers at most once. */
  lemma OneDeliveryAtMost(ss: seq<State>, es: seq<Step>, w: nat)
    requires IsRun(ss, es)
    ensures Count(ss, es, 0, |es|, DeliveriesOf(w)) <= 1
  {
    var p := DeliveriesOf(w);
    var budget := (s: State) => DeliveryBudget(s, w);
    forall s, e | Inv(s) && Enabled(s, e)
      ensures budget(Apply(s, e)) + (if p(s, e) then 1 else 0) <= budget(s)
    {
      DeliveryBudgetStep(s, e, w);
    }
    BudgetBoundsCount(ss, es, 0, |es|, budget, p);
  }

  /** Lines left to a worker, a running child process counting as one. */
  function Rank(me: Worker): nat {
    (if me.attempt == 0 then 10 else 0) + (if me.child.Running? then 1 else 0)
    + match me.pc
      case Begin => 13
      case Started => 11
      case Waiting => 10
      case Clearing(_) => 9
      case GateGen(_) => 8
      case GateWanted(_) => 7
      case Reading => 6
      case Replacing(_) => 5
      case Judging(_) => 4
      case Delivering(_) => 3
      case Unlinking => 2
      case Dropping => 1
      case Done => 0
  }

  lemma RankDrops(s: State, w: nat, ok: bool)
    requires Enabled(s, Thread(w, ok)) && LocalWorker(s.workers[w], w)
    ensures var t := ThreadStep(s, w, ok);
            |t.workers| == |s.workers| && Rank(t.workers[w]) < Rank(s.workers[w])
  {
    var pc := s.workers[w].pc;
    if pc.GateWanted? || pc.Judging? {
      RankDropsOnRetry(s, w, ok);
    } else if pc.Begin? || pc.Started? || pc.Waiting? || pc.Clearing? || pc.GateGen? {
      RankDropsInCapture(s, w, ok);
    } else {
      RankDropsInDelivery(s, w, ok);
    }
  }

  lemma RankDropsOnRetry(s: State, w: nat, ok: bool)
    requires Enabled(s, Thread(w, ok)) && LocalWorker(s.workers[w], w)
    requires s.workers[w].pc.GateWanted? || s.workers[w].pc.Judging?
    ensures var t := ThreadStep(s, w, ok);
            |t.workers| == |s.workers| && Rank(t.workers[w]) < Rank(s.workers[w])
  {
  }

  lemma RankDropsInCapture(s: State, w: nat, ok: bool)
    requires Enabled(s, Thread(w, ok)) && LocalWorker(s.workers[w], w)
    requires var pc := s.workers[w].pc; pc.Begin? || pc.Started? || pc.Waiting? || pc.Clearing? || pc.GateGen?
    ensures var t := ThreadStep(s, w, ok);
            |t.workers| == |s.workers| && Rank(t.workers[w]) < Rank(s.workers[w])
  {
  }

  lemma RankDropsInDelivery(s: State, w: nat, ok: bool)
    requires Enabled(s, Thread(w, ok)) && LocalWorker(s.workers[w], w)
    requires var pc := s.workers[w].pc;
             pc.Reading? || pc.Replacing? || pc.Delivering? || pc.Unlinking? || pc.Dropping?
    ensures var t := ThreadStep(s, w, ok);
            |t.workers| == |s.workers| && Rank(t.workers[w]) < Rank(s.workers[w])
  {
  }

  function WorkBudget(s: State, w: nat): nat {
    if w < |s.workers| then Rank(s.workers[w]) else 23
  }

  /** A step of worker `w`, or the end of its capture process. */
  predicate Advances(s: State, e: Step, w: nat) {
    (e.Thread? && e.w == w) || (e.Exit? && e.w == w)
  }

  lemma WorkBudgetStep(s: State, e: Step, w: nat)
    requires Inv(s) && Enabled(s, e)
    ensures WorkBudget(Apply(s, e), w) + (if Advances(s, e, w) then 1 else 0) <= WorkBudget(s, w)
  {
    if w >= |s.workers| {
      if w < |Apply(s, e).workers| { NewcomerBegins(s, e, w); }
    } else if !At(s, e, w) {
      OthersKeepRecord(s, e, w);
    } else {
      ThreadFrame(s, w, e.ok);
      RankDrops(s, w, e.ok);
    }
  }

  /** A worker is done after at most 23 steps of its own and its processes' ends, whatever the others do. */
  lemma WorkerTerminates(ss: seq<State>, es: seq<Step>, w: nat)
    requires IsRun(ss, es)
    ensures Count(ss, es, 0, |es|, AdvancesOf(w)) <= 23
  {
    var p := AdvancesOf(w);
    var budget := (s: State) => WorkBudget(s, w);
    forall s, e | Inv(s) && Enabled(s, e)
      ensures budget(Apply(s, e)) + (if p(s, e) then 1 else 0) <= budget(s)
    {
      WorkBudgetStep(s, e, w);
    }
    BudgetBoundsCount(ss, es, 0, |es|, budget, p);
  }

  /** A live worker is never stuck: it can take its next line, or it waits for a process that can end. */
  lemma WorkerNeverStuck(ss: seq<State>, es: seq<Step>, k: nat, w: nat)
    requires IsRun(ss, es) && k <= |es| && w < |ss[k].workers| && ss[k].workers[w].Live()
    ensures Enabled(ss[k], Thread(w, true)) || forall rc | rc != 0 :: Enabled(ss[k], Exit(w, rc))
  {
    RunKeepsInv(ss, es, k);
    assert LocalWorker(ss[k].workers[w], w);
  }
}
