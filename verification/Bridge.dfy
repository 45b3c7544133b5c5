/**
  The capture bridge: D-Bus handlers on the main thread race worker threads over the shared
  `state` dictionary and the file cap.pgm.  Every shared access of the program is one atomic step.
  In particular the two dictionary reads of the gate (`gen`, then `wanted`) are two steps.
 */
module Bridge {
  import opened Base

  const MIN_ROWS := 80
  const DEV_IFACE := "net.reactivated.Fprint.Device"

  /** What the main loop can be woken by. */
  datatype Signal =
    | PropertiesChanged(iface: string, changed: map<string, bool>)
    | VerifyFingerSelected
    | PendingAtStartup

  /** One capture process, named by the worker and the attempt that started it. */
  datatype Child = Child(worker: nat, attempt: nat)

  /** The contents of cap.pgm: who wrote them, and the height of the image. */
  datatype Scan = Scan(writer: Child, rows: int)

  datatype Process = NoProcess | Running(wrote: bool) | Exited(rc: int)

  /** The line the main thread is about to execute. */
  datatype MainPc =
    | Idle
    | NeedSet | NeedCheck | Reserve | BumpSpawn | Spawn
    | NotCheck | Withdraw | CancelCheck | BumpCancel
    | ReadProc | Poll(target: Option<Child>) | Kill(victim: Child) | Pkill

  /** The line a worker thread is about to execute. */
  datatype WorkerPc =
    | Begin | Started | Waiting | Clearing(ok: bool)
    | GateGen(ok: bool) | GateWanted(ok: bool)
    | Reading | Replacing(img: Scan) | Judging(img: Scan) | Delivering(img: Scan)
    | Unlinking | Dropping | Done

  /** `child` is the process of the current attempt. */
  datatype Worker = Worker(gen: nat, attempt: nat, pc: WorkerPc, child: Process) {
    predicate Live() { !pc.Done? }

    /** The end of one round of the attempt loop. */
    function NextAttempt(): Worker {
      if attempt == 0 then this.(attempt := 1, pc := Begin, child := NoProcess)
      else this.(pc := Unlinking)
    }
  }

  /** Workers are numbered in the order they were spawned. */
  datatype State = State(
    proc: Option<Child>, capturing: bool, wanted: bool, gen: nat,
    main: MainPc, workers: seq<Worker>, file: Option<Scan>, last: Option<Scan>)
  {
    predicate Alive(c: Child) {
      c.worker < |workers| && workers[c.worker].attempt == c.attempt && workers[c.worker].child.Running?
    }

    /** The process has ended and its worker has not returned from waiting for it. */
    predicate Unreaped(c: Child) {
      && c.worker < |workers| && workers[c.worker].attempt == c.attempt
      && workers[c.worker].pc.Waiting? && workers[c.worker].child.Exited?
    }

    predicate HasLive() { workers != [] && workers[|workers| - 1].Live() }
  }

  function Init(): State {
    State(None, false, false, 0, Idle, [], None, None)
  }

  /**
    One step of one of the actors.  `ok` says whether the system call on a worker's line succeeds.
    `PollBusy` is the main thread's poll of line 42 while the worker is inside `p.wait()`, which holds
    the lock of the process object: poll then answers None although the process has ended.
   */
  datatype Step =
    | Receive(sig: Signal)
    | Main
    | PollBusy
    | Thread(w: nat, ok: bool)
    | Write(w: nat, rows: int)
    | Exit(w: nat, rc: int)

  /** `on_props_changed`, `on_verify_selected` and `check_initial`. */
  function HandlerOf(sig: Signal): MainPc {
    match sig
    case PropertiesChanged(iface, changed) =>
      if iface != DEV_IFACE || "finger-needed" !in changed then Idle
      else if changed["finger-needed"] then NeedSet else NotCheck
    case VerifyFingerSelected => NeedSet
    case PendingAtStartup => NeedSet
  }

  function MainStep(s: State): State
    requires !s.main.Idle?
  {
    match s.main
    case NeedSet => s.(wanted := true, main := NeedCheck)
    case NeedCheck => s.(main := if s.capturing then Idle else Reserve)
    case Reserve => s.(capturing := true, main := BumpSpawn)
    case BumpSpawn => s.(gen := s.gen + 1, main := Spawn)
    case Spawn => s.(workers := s.workers + [Worker(s.gen, 0, Begin, NoProcess)], main := Idle)
    case NotCheck => s.(main := if s.wanted then Withdraw else Idle)
    case Withdraw => s.(wanted := false, main := CancelCheck)
    case CancelCheck => s.(main := if s.capturing then BumpCancel else Idle)
    case BumpCancel => s.(gen := s.gen + 1, main := ReadProc)
    case ReadProc => s.(main := Poll(s.proc))
    case Poll(target) => s.(main := if target.Some? && s.Alive(target.value) then Kill(target.value) else Idle)
    case Kill(_) => s.(main := Pkill)
    case Pkill => s.(main := Idle)
  }

  function SetWorker(s: State, w: nat, me: Worker): State
    requires w < |s.workers|
  {
    s.(workers := s.workers[w := me])
  }

  function ThreadStep(s: State, w: nat, ok: bool): State
    requires w < |s.workers| && s.workers[w].Live()
    requires s.workers[w].pc.Waiting? ==> s.workers[w].child.Exited?
  {
    var me := s.workers[w];
    match me.pc
    case Begin => SetWorker(s, w, if ok then me.(pc := Started, child := Running(false)) else me.(pc := Unlinking))
    case Started => SetWorker(s.(proc := Some(Child(w, me.attempt))), w, me.(pc := Waiting))
    case Waiting => SetWorker(s, w, me.(pc := Clearing(me.child.rc == 0)))
    case Clearing(good) => SetWorker(s.(proc := None), w, me.(pc := GateGen(good)))
    case GateGen(good) => SetWorker(s, w, me.(pc := if s.gen != me.gen then Unlinking else GateWanted(good)))
    case GateWanted(good) =>
      SetWorker(s, w,
                if !s.wanted then me.(pc := Unlinking) else if good then me.(pc := Reading) else me.NextAttempt())
    case Reading => SetWorker(s, w, me.(pc := if s.file.Some? && ok then Replacing(s.file.value) else Unlinking))
    case Replacing(img) =>
      if s.file.Some? && ok then SetWorker(s.(last := s.file, file := None), w, me.(pc := Judging(img)))
      else SetWorker(s, w, me.(pc := Unlinking))
    case Judging(img) => SetWorker(s, w, if img.rows < MIN_ROWS then me.NextAttempt() else me.(pc := Delivering(img)))
    case Delivering(_) => SetWorker(s, w, me.(pc := Unlinking))
    case Unlinking => SetWorker(s.(file := None), w, me.(pc := Dropping))
    case Dropping => SetWorker(s.(capturing := false), w, me.(pc := Done))
  }

  /** A capture process reports success only after it wrote its output. */
  predicate Enabled(s: State, e: Step) {
    match e
    case Receive(_) => s.main.Idle?
    case Main => !s.main.Idle?
    case PollBusy => s.main.Poll? && s.main.target.Some? && s.Unreaped(s.main.target.value)
    case Thread(w, _) =>
      w < |s.workers| && s.workers[w].Live() && (s.workers[w].pc.Waiting? ==> s.workers[w].child.Exited?)
    case Write(w, _) => w < |s.workers| && s.workers[w].child.Running?
    case Exit(w, rc) => w < |s.workers| && s.workers[w].child.Running? && (rc == 0 ==> s.workers[w].child.wrote)
  }

  function Apply(s: State, e: Step): State
    requires Enabled(s, e)
  {
    match e
    case Receive(sig) => s.(main := HandlerOf(sig))
    case Main => MainStep(s)
    case PollBusy => s.(main := Kill(s.main.target.value))
    case Thread(w, ok) => ThreadStep(s, w, ok)
    case Write(w, rows) =>
      SetWorker(s.(file := Some(Scan(Child(w, s.workers[w].attempt), rows))), w,
                s.workers[w].(child := Running(true)))
    case Exit(w, rc) => SetWorker(s, w, s.workers[w].(child := Exited(rc)))
  }

  /** A run: states and the steps between them, from the initial state, in any interleaving. */
  ghost predicate IsRun(ss: seq<State>, es: seq<Step>) {
    && |ss| == |es| + 1
    && ss[0] == Init()
    && forall k | 0 <= k < |es| :: Enabled(ss[k], es[k]) && ss[k + 1] == Apply(ss[k], es[k])
  }

  /** Where a schedule leads, and which of its picks are taken: a disabled pick does nothing. */
  function Played(s: State, schedule: seq<Step>): (State, seq<Step>)
    decreases |schedule|
  {
    if schedule == [] then (s, [])
    else if Enabled(s, schedule[0]) then
      var (t, taken) := Played(Apply(s, schedule[0]), schedule[1..]);
      (t, [schedule[0]] + taken)
    else Played(s, schedule[1..])
  }

  /** Every run is the play of its own steps, so no interleaving is out of a scheduler's reach. */
  lemma {:induction false} RunIsPlayed(ss: seq<State>, es: seq<Step>, k: nat)
    requires IsRun(ss, es) && k <= |es|
    ensures Played(ss[k], es[k..]) == (ss[|es|], es[k..])
    decreases |es| - k
  {
    if k < |es| {
      RunIsPlayed(ss, es, k + 1);
      assert es[k..][0] == es[k] && es[k..][1..] == es[k + 1..];
      assert es[k..] == [es[k]] + es[k + 1..];
    }
  }

  // ---- The invariant ----------------------------------------------------------------------

  ghost predicate Generations(s: State) {
    && (forall i, j | 0 <= i < j < |s.workers| :: s.workers[i].gen < s.workers[j].gen)
    && (forall i | 0 <= i < |s.workers| :: s.workers[i].gen <= s.gen)
    && (s.main.Spawn? || Cancelling(s.main) ==> forall i | 0 <= i < |s.workers| :: s.workers[i].gen < s.gen)
  }

  /** The main thread is between the generation bump of a cancellation and its end. */
  predicate Cancelling(pc: MainPc) { pc.ReadProc? || pc.Poll? || pc.Kill? || pc.Pkill? }

  predicate Reserving(pc: MainPc) { pc.Reserve? || pc.BumpSpawn? || pc.Spawn? }

  ghost predicate Exclusion(s: State) {
    && (forall i | 0 <= i < |s.workers| - 1 :: !s.workers[i].Live())
    && (s.capturing <==> s.main.BumpSpawn? || s.main.Spawn? || s.HasLive())
    && (Reserving(s.main) ==> !s.HasLive())
  }

  ghost predicate Intent(s: State) {
    && (s.main.NeedCheck? || Reserving(s.main) ==> s.wanted)
    && (s.main.CancelCheck? || s.main.BumpCancel? || Cancelling(s.main) ==> !s.wanted)
    && (s.main.Poll? && s.main.target.Some? ==> s.main.target.value.worker == |s.workers| - 1)
    && (s.main.Kill? ==> s.main.victim.worker == |s.workers| - 1)
  }

  /** The scan a worker carries between reading the file and delivering it. */
  function Carried(pc: WorkerPc): Option<Scan> {
    match pc
    case Replacing(img) => Some(img)
    case Judging(img) => Some(img)
    case Delivering(img) => Some(img)
    case _ => None
  }

  ghost predicate LocalWorker(me: Worker, w: nat) {
    && me.attempt <= 1
    && (me.child.Running? ==> me.pc.Started? || me.pc.Waiting?)
    && (me.pc.Started? ==> me.child.Running? || me.child.Exited?)
    && (me.pc.Waiting? ==> me.child.Running? || me.child.Exited?)
    && (me.pc.Begin? ==> me.child.NoProcess?)
    && (me.pc.Clearing? || me.pc.GateGen? || me.pc.GateWanted? ==> me.child.Exited? && me.pc.ok == (me.child.rc == 0))
    && (me.pc.Reading? ==> me.child == Exited(0))
    && (Carried(me.pc).Some? ==> Carried(me.pc).value.writer == Child(w, me.attempt))
    && (me.pc.Delivering? ==> me.pc.img.rows >= MIN_ROWS)
  }

  /** The process of the current attempt has written its output and the worker has not moved it away. */
  predicate HoldsFile(me: Worker) {
    || me.child == Running(true)
    || (me.child == Exited(0)
        && (me.pc.Started? || me.pc.Waiting? || me.pc.Clearing? || me.pc.GateGen? || me.pc.GateWanted?
            || me.pc.Reading?))
  }

  ghost predicate Ownership(s: State) {
    && (!s.HasLive() ==> s.proc.None? && s.file.None?)
    && (s.HasLive() ==>
          var w := |s.workers| - 1;
          var me := s.workers[w];
          && s.proc == (if me.pc.Waiting? || me.pc.Clearing? then Some(Child(w, me.attempt)) else None)
          && (s.file.Some? ==> s.file.value.writer.worker == w)
          && (HoldsFile(me) ==> s.file.Some? && s.file.value.writer == Child(w, me.attempt))
          && (me.pc.Replacing? ==> s.file == Some(me.pc.img))
          && (me.pc.Judging? || me.pc.Delivering? ==> s.last == Some(me.pc.img) && s.file.None?)
          && (me.pc.Dropping? ==> s.file.None?))
  }

  ghost predicate Inv(s: State) {
    && Generations(s)
    && Exclusion(s)
    && Intent(s)
    && (forall w | 0 <= w < |s.workers| :: LocalWorker(s.workers[w], w))
    && Ownership(s)
  }

  /** A step that changes one worker record, and it is the live one, only has local facts to keep. */
  lemma LiveWorkerStep(s: State, t: State, me: Worker)
    requires Inv(s) && s.HasLive()
    requires t.workers == s.workers[|s.workers| - 1 := me] && me.gen == s.workers[|s.workers| - 1].gen
    requires t.gen == s.gen && t.main == s.main && t.wanted == s.wanted
    requires t.capturing == me.Live()
    requires LocalWorker(me, |s.workers| - 1) && Ownership(t)
    ensures Inv(t)
  {
    assert Generations(t);
    assert Exclusion(t);
  }

  lemma ThreadKeepsInv(s: State, w: nat, ok: bool)
    requires Inv(s) && Enabled(s, Thread(w, ok))
    ensures Inv(ThreadStep(s, w, ok))
  {
    ThreadFrame(s, w, ok);
    var t := ThreadStep(s, w, ok);
    if s.workers[w].pc.Begin? || s.workers[w].pc.Started? || s.workers[w].pc.Waiting? || s.workers[w].pc.Clearing? {
      CaptureStaysLocal(s, w, ok);
    } else {
      DeliveryStaysLocal(s, w, ok);
    }
    LiveWorkerStep(s, t, t.workers[w]);
  }

  /** What no line of a worker thread touches. */
  lemma ThreadFrame(s: State, w: nat, ok: bool)
    requires Inv(s) && Enabled(s, Thread(w, ok))
    ensures w == |s.workers| - 1 && LocalWorker(s.workers[w], w)
    ensures var t := ThreadStep(s, w, ok);
            && |t.workers| == |s.workers|
            && t.workers == s.workers[w := t.workers[w]]
            && t.workers[w].gen == s.workers[w].gen
            && t.gen == s.gen && t.main == s.main && t.wanted == s.wanted
            && t.capturing == t.workers[w].Live()
  {
  }

  lemma CaptureStaysLocal(s: State, w: nat, ok: bool)
    requires Enabled(s, Thread(w, ok)) && w == |s.workers| - 1
    requires LocalWorker(s.workers[w], w) && Ownership(s)
    requires var pc := s.workers[w].pc; pc.Begin? || pc.Started? || pc.Waiting? || pc.Clearing?
    ensures var t := ThreadStep(s, w, ok);
            LocalWorker(t.workers[w], w) && Ownership(t)
  {
  }

  lemma DeliveryStaysLocal(s: State, w: nat, ok: bool)
    requires Enabled(s, Thread(w, ok)) && w == |s.workers| - 1
    requires LocalWorker(s.workers[w], w) && Ownership(s)
    requires var pc := s.workers[w].pc; !(pc.Begin? || pc.Started? || pc.Waiting? || pc.Clearing?)
    ensures var t := ThreadStep(s, w, ok);
            LocalWorker(t.workers[w], w) && Ownership(t)
  {
    var pc := s.workers[w].pc;
    if pc.GateGen? || pc.GateWanted? {
      GateStaysLocal(s, w, ok);
    } else if Carried(pc).Some? || pc.Reading? {
      ImageStaysLocal(s, w, ok);
    }
  }

  lemma GateStaysLocal(s: State, w: nat, ok: bool)
    requires Enabled(s, Thread(w, ok)) && w == |s.workers| - 1
    requires LocalWorker(s.workers[w], w) && Ownership(s)
    requires s.workers[w].pc.GateGen? || s.workers[w].pc.GateWanted?
    ensures var t := ThreadStep(s, w, ok);
            LocalWorker(t.workers[w], w) && Ownership(t)
  {
  }

  lemma ImageStaysLocal(s: State, w: nat, ok: bool)
    requires Enabled(s, Thread(w, ok)) && w == |s.workers| - 1
    requires LocalWorker(s.workers[w], w) && Ownership(s)
    requires s.workers[w].pc.Reading? || Carried(s.workers[w].pc).Some?
    ensures var t := ThreadStep(s, w, ok);
            LocalWorker(t.workers[w], w) && Ownership(t)
  {
  }

  lemma ChildKeepsInv(s: State, e: Step)
    requires Inv(s) && Enabled(s, e) && (e.Write? || e.Exit?)
    ensures Inv(Apply(s, e))
  {
    assert LocalWorker(s.workers[e.w], e.w);
    assert e.w == |s.workers| - 1;
    LiveWorkerStep(s, Apply(s, e), Apply(s, e).workers[e.w]);
  }

  lemma SpawnKeepsInv(s: State)
    requires Inv(s) && s.main.Spawn?
    ensures Inv(MainStep(s))
  {
    SpawnKeepsGenerations(s);
    SpawnKeepsExclusion(s);
    var t := MainStep(s);
    assert forall w | 0 <= w < |s.workers| :: t.workers[w] == s.workers[w];
    assert LocalWorker(t.workers[|s.workers|], |s.workers|);
  }

  lemma SpawnKeepsGenerations(s: State)
    requires Generations(s) && s.main.Spawn?
    ensures Generations(MainStep(s))
  {
  }

  lemma SpawnKeepsExclusion(s: State)
    requires Exclusion(s) && s.main.Spawn?
    ensures Exclusion(MainStep(s))
  {
    forall w | 0 <= w < |s.workers| ensures !s.workers[w].Live() {
      if w == |s.workers| - 1 { assert !s.HasLive(); }
    }
  }

  /** Every other line of the main thread leaves the workers, `proc` and the file alone. */
  lemma MainFrame(s: State)
    requires !s.main.Idle? && !s.main.Spawn?
    ensures var t := MainStep(s);
            t.workers == s.workers && t.proc == s.proc && t.file == s.file && t.gen >= s.gen
  {
  }

  lemma RequestKeepsInv(s: State)
    requires Inv(s) && (s.main.NeedSet? || s.main.NeedCheck? || s.main.Reserve? || s.main.BumpSpawn?)
    ensures Inv(MainStep(s))
  {
    MainFrame(s);
    assert Exclusion(MainStep(s)) && Generations(MainStep(s));
  }

  lemma WithdrawalKeepsInv(s: State)
    requires Inv(s) && (s.main.NotCheck? || s.main.Withdraw? || s.main.CancelCheck? || s.main.BumpCancel?)
    ensures Inv(MainStep(s))
  {
    MainFrame(s);
    assert Exclusion(MainStep(s)) && Generations(MainStep(s));
  }

  lemma KillKeepsInv(s: State)
    requires Inv(s) && Cancelling(s.main)
    ensures Inv(MainStep(s))
  {
    MainFrame(s);
    assert Exclusion(MainStep(s)) && Generations(MainStep(s));
  }

  lemma PollKeepsInv(s: State)
    requires Inv(s) && Enabled(s, PollBusy)
    ensures Inv(Apply(s, PollBusy))
  {
    assert Exclusion(Apply(s, PollBusy)) && Generations(Apply(s, PollBusy));
  }

  lemma MainKeepsInv(s: State)
    requires Inv(s) && !s.main.Idle?
    ensures Inv(MainStep(s))
  {
    match s.main
    case Spawn => SpawnKeepsInv(s);
    case NeedSet => RequestKeepsInv(s);
    case NeedCheck => RequestKeepsInv(s);
    case Reserve => RequestKeepsInv(s);
    case BumpSpawn => RequestKeepsInv(s);
    case NotCheck => WithdrawalKeepsInv(s);
    case Withdraw => WithdrawalKeepsInv(s);
    case CancelCheck => WithdrawalKeepsInv(s);
    case BumpCancel => WithdrawalKeepsInv(s);
    case _ => KillKeepsInv(s);
  }

  lemma StepKeepsInv(s: State, e: Step)
    requires Inv(s) && Enabled(s, e)
    ensures Inv(Apply(s, e))
  {
    match e
    case Receive(_) =>
    case Main => MainKeepsInv(s);
    case PollBusy => PollKeepsInv(s);
    case Thread(w, ok) => ThreadKeepsInv(s, w, ok);
    case Write(_, _) => ChildKeepsInv(s, e);
    case Exit(_, _) => ChildKeepsInv(s, e);
  }

  lemma {:induction false} RunKeepsInv(ss: seq<State>, es: seq<Step>, k: nat)
    requires IsRun(ss, es) && k <= |es|
    ensures Inv(ss[k])
  {
    if k > 0 {
      RunKeepsInv(ss, es, k - 1);
      StepKeepsInv(ss[k - 1], es[k - 1]);
    }
  }
}
