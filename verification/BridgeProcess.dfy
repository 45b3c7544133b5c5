/**
  The bridge as the program has it: one mutable `state` dictionary, the capture file and the threads'
  records, updated in place one shared access at a time.  The ghost history makes the link to the
  transition system: whatever the scheduler does, the object's past is a run.
 */
module BridgeProcess {
  import opened Base
  import opened Bridge

  /** How the system calls of one round of the attempt loop turn out. */
  datatype Attempt = Attempt(starts: bool, output: Option<int>, rc: int, readable: bool, moves: bool) {
    /** The capture tool reports success only after it wrote its output. */
    predicate Honest() { rc == 0 ==> output.Some? }

    /** The round ends with an image in hand. */
    predicate Read() { starts && rc == 0 && output.Some? && readable && moves }

    /** The loop goes on to the next round. */
    predicate Retries() { starts && (rc != 0 || (Read() && output.value < 80)) }
  }

  /** The scan a worker nobody cancels hands over: that of the first round that does not fail, if it is tall enough. */
  function Outcome(w: nat, a: Attempt, b: Attempt): Option<Scan> {
    if a.Read() && a.output.value >= 80 then Some(Scan(Child(w, 0), a.output.value))
    else if a.Retries() && b.Read() && b.output.value >= 80 then Some(Scan(Child(w, 1), b.output.value))
    else None
  }

  /** fprintd's device reports `finger-needed` with this value. */
  predicate FingerNeeded(sig: Signal, needed: bool) {
    && sig.PropertiesChanged? && sig.iface == "net.reactivated.Fprint.Device"
    && ("finger-needed", needed) in sig.changed.Items
  }

  class Process {
    var proc: Option<Child>
    var capturing: bool
    var wanted: bool
    var gen: nat
    var main: MainPc
    var workers: seq<Worker>
    var file: Option<Scan>
    var last: Option<Scan>

    ghost var past: seq<State>
    ghost var steps: seq<Step>

    function View(): State
      reads this
    {
      State(proc, capturing, wanted, gen, main, workers, file, last)
    }

    ghost predicate Valid()
      reads this
    {
      IsRun(past, steps) && past[|steps|] == View()
    }

    constructor ()
      ensures Valid() && View() == Init() && steps == []
    {
      proc, capturing, wanted, gen := None, false, false, 0;
      main, workers, file, last := Idle, [], None, None;
      past, steps := [Init()], [];
    }

    ghost method Record(e: Step)
      requires IsRun(past, steps) && Enabled(past[|steps|], e) && View() == Apply(past[|steps|], e)
      modifies this`past, this`steps
      ensures Valid() && steps == old(steps) + [e]
    {
      past, steps := past + [View()], steps + [e];
    }

    /** Who gets a signal; nothing else changes. */
    method Dispatch(sig: Signal)
      requires Valid() && main.Idle?
      modifies this
      ensures main.NeedSet? <==> sig.VerifyFingerSelected? || sig.PendingAtStartup? || FingerNeeded(sig, true)
      ensures main.NotCheck? <==> FingerNeeded(sig, false)
      ensures main.NeedSet? || main.NotCheck? || main.Idle?
      ensures Valid() && View() == old(View()).(main := main) && steps == old(steps) + [Receive(sig)]
    {
      if sig.PropertiesChanged? {
        if sig.iface != DEV_IFACE || "finger-needed" !in sig.changed {
          main := Idle;
        } else if sig.changed["finger-needed"] {
          main := NeedSet;
        } else {
          main := NotCheck;
        }
      } else {
        main := NeedSet;
      }
      Record(Receive(sig));
    }

    /** The next shared access of `on_needed`, `on_not_needed` or `kill_capture`. */
    method MainLine()
      requires Valid() && !main.Idle?
      modifies this
      ensures Valid() && View() == MainStep(old(View())) && steps == old(steps) + [Main]
    {
      match main {
        case NeedSet => wanted, main := true, NeedCheck;
        case NeedCheck => main := if capturing then Idle else Reserve;
        case Reserve => capturing, main := true, BumpSpawn;
        case BumpSpawn => gen, main := gen + 1, Spawn;
        case Spawn => workers, main := workers + [Worker(gen, 0, Begin, NoProcess)], Idle;
        case NotCheck => main := if wanted then Withdraw else Idle;
        case Withdraw => wanted, main := false, CancelCheck;
        case CancelCheck => main := if capturing then BumpCancel else Idle;
        case BumpCancel => gen, main := gen + 1, ReadProc;
        case ReadProc => main := Poll(proc);
        case Poll(target) => main := if target.Some? && View().Alive(target.value) then Kill(target.value) else Idle;
        case Kill(_) => main := Pkill;
        case Pkill => main := Idle;
      }
      Record(Main);
    }

    /** Line 42 while the worker still holds the lock of an ended process. */
    method PollLocked()
      requires Valid() && Enabled(View(), PollBusy)
      modifies this
      ensures Valid() && View() == Apply(old(View()), PollBusy) && steps == old(steps) + [PollBusy]
    {
      main := Kill(main.target.value);
      Record(PollBusy);
    }

    method Goto(w: nat, pc: WorkerPc)
      requires w < |workers|
      modifies this`workers
      ensures workers == old(workers)[w := old(workers)[w].(pc := pc)]
    {
      workers := workers[w := workers[w].(pc := pc)];
    }

    /** The lines of `run_capture`. */
    method CaptureLine(w: nat, ok: bool)
      requires Valid() && Enabled(View(), Thread(w, ok))
      requires var pc := workers[w].pc; pc.Begin? || pc.Started? || pc.Waiting? || pc.Clearing?
      modifies this
      ensures Valid() && View() == ThreadStep(old(View()), w, ok) && steps == old(steps) + [Thread(w, ok)]
    {
      var me := workers[w];
      match me.pc {
        case Begin =>
          if ok {
            workers := workers[w := me.(child := Running(false))];
            Goto(w, Started);
          } else {
            Goto(w, Unlinking);
          }
        case Started =>
          proc := Some(Child(w, me.attempt));
          Goto(w, Waiting);
        case Waiting =>
          Goto(w, Clearing(me.child.rc == 0));
        case Clearing(good) =>
          proc := None;
          Goto(w, GateGen(good));
      }
      Record(Thread(w, ok));
    }

    /** Line 54, one read of it. */
    method GateLine(w: nat, ok: bool)
      requires Valid() && Enabled(View(), Thread(w, ok)) && (workers[w].pc.GateGen? || workers[w].pc.GateWanted?)
      modifies this
      ensures Valid() && View() == ThreadStep(old(View()), w, ok) && steps == old(steps) + [Thread(w, ok)]
    {
      var me := workers[w];
      match me.pc {
        case GateGen(good) =>
          Goto(w, if gen != me.gen then Unlinking else GateWanted(good));
        case GateWanted(good) =>
          if !wanted {
            Goto(w, Unlinking);
          } else if good {
            Goto(w, Reading);
          } else {
            workers := workers[w := me.NextAttempt()];
          }
      }
      Record(Thread(w, ok));
    }

    /** Lines 57 to 65: the image. */
    method ImageLine(w: nat, ok: bool)
      requires Valid() && Enabled(View(), Thread(w, ok))
      requires workers[w].pc.Reading? || Carried(workers[w].pc).Some?
      modifies this
      ensures Valid() && View() == ThreadStep(old(View()), w, ok) && steps == old(steps) + [Thread(w, ok)]
    {
      var me := workers[w];
      match me.pc {
        case Reading =>
          Goto(w, if file.Some? && ok then Replacing(file.value) else Unlinking);
        case Replacing(img) =>
          if file.Some? && ok {
            last, file := file, None;
            Goto(w, Judging(img));
          } else {
            Goto(w, Unlinking);
          }
        case Judging(img) =>
          if img.rows < MIN_ROWS {
            workers := workers[w := me.NextAttempt()];
          } else {
            Goto(w, Delivering(img));
          }
        case Delivering(_) =>
          Goto(w, Unlinking);
      }
      Record(Thread(w, ok));
    }

    /** The lines of `capture_and_deliver` around the capture; those of its `finally` are written out here. */
    method DeliverLine(w: nat, ok: bool)
      requires Valid() && Enabled(View(), Thread(w, ok))
      requires var pc := workers[w].pc; !(pc.Begin? || pc.Started? || pc.Waiting? || pc.Clearing?)
      modifies this
      ensures Valid() && View() == ThreadStep(old(View()), w, ok) && steps == old(steps) + [Thread(w, ok)]
    {
      var pc := workers[w].pc;
      if pc.GateGen? || pc.GateWanted? {
        GateLine(w, ok);
      } else if pc.Unlinking? {
        file := None;
        Goto(w, Dropping);
        Record(Thread(w, ok));
      } else if pc.Dropping? {
        capturing := false;
        Goto(w, Done);
        Record(Thread(w, ok));
      } else {
        ImageLine(w, ok);
      }
    }

    /** The capture process writes its output file. */
    method ChildWrites(w: nat, rows: int)
      requires Valid() && Enabled(View(), Write(w, rows))
      modifies this
      ensures Valid() && View() == Apply(old(View()), Write(w, rows)) && steps == old(steps) + [Write(w, rows)]
    {
      file := Some(Scan(Child(w, workers[w].attempt), rows));
      workers := workers[w := workers[w].(child := Running(true))];
      Record(Write(w, rows));
    }

    method ChildExits(w: nat, rc: int)
      requires Valid() && Enabled(View(), Exit(w, rc))
      modifies this
      ensures Valid() && View() == Apply(old(View()), Exit(w, rc)) && steps == old(steps) + [Exit(w, rc)]
    {
      workers := workers[w := workers[w].(child := Exited(rc))];
      Record(Exit(w, rc));
    }

    method TakeStep(e: Step)
      requires Valid() && Enabled(View(), e)
      modifies this
      ensures Valid() && View() == Apply(old(View()), e) && steps == old(steps) + [e]
    {
      match e
      case Receive(sig) => Dispatch(sig);
      case Main => MainLine();
      case PollBusy => PollLocked();
      case Thread(w, ok) =>
        var pc := workers[w].pc;
        if pc.Begin? || pc.Started? || pc.Waiting? || pc.Clearing? {
          CaptureLine(w, ok);
        } else {
          DeliverLine(w, ok);
        }
      case Write(w, rows) => ChildWrites(w, rows);
      case Exit(w, rc) => ChildExits(w, rc);
    }

    /** Any interleaving: the scheduler picks the actor, disabled picks do nothing. */
    method Run(schedule: seq<Step>)
      requires Valid()
      modifies this
      ensures Valid() && Inv(View())
      ensures View() == Played(old(View()), schedule).0
      ensures steps == old(steps) + Played(old(View()), schedule).1
    {
      for k := 0 to |schedule|
        invariant Valid()
        invariant Played(View(), schedule[k..]).0 == Played(old(View()), schedule).0
        invariant steps + Played(View(), schedule[k..]).1 == old(steps) + Played(old(View()), schedule).1
      {
        var e := schedule[k];
        assert schedule[k..][0] == e && schedule[k..][1..] == schedule[k + 1..];
        if Enabled(View(), e) { TakeStep(e); }
      }
      RunKeepsInv(past, steps, |steps|);
    }

    /** `on_needed` undisturbed by a worker: a second request while capturing starts nothing. */
    method OnNeeded(sig: Signal)
      requires Valid() && main.Idle? && HandlerOf(sig).NeedSet?
      modifies this
      ensures Valid() && main.Idle? && wanted && capturing
      ensures old(capturing) ==> View() == old(View()).(wanted := true)
      ensures !old(capturing) ==>
                View() == old(View()).(wanted := true, capturing := true, gen := old(gen) + 1,
                                       workers := old(workers) + [Worker(old(gen) + 1, 0, Begin, NoProcess)])
    {
      Dispatch(sig);
      MainLine();
      MainLine();
      if !main.Idle? {
        MainLine();
        MainLine();
        MainLine();
      }
    }

    /**
      `kill_capture` undisturbed: it changes nothing the bridge keeps, and signals the recorded process,
      over lines 43 and 45, exactly when that runs.
     */
    method KillCapture() returns (signalled: Option<Child>)
      requires Valid() && main.ReadProc?
      modifies this
      ensures Valid() && View() == old(View()).(main := Idle)
      ensures signalled == if proc.Some? && proc.value.worker < |workers|
                              && workers[proc.value.worker].attempt == proc.value.attempt
                              && workers[proc.value.worker].child.Running?
                           then proc else None
      ensures |steps| == |old(steps)| + (if signalled.Some? then 4 else 2)
    {
      signalled := None;
      MainLine();
      MainLine();
      if !main.Idle? {
        signalled := Some(main.victim);
        MainLine();
        MainLine();
      }
    }

    /**
      `on_not_needed` undisturbed: it only takes back a standing request, outdates the live worker, and
      signals that worker's process exactly when it is recorded and runs.
     */
    method OnNotNeeded(sig: Signal) returns (signalled: Option<Child>)
      requires Valid() && main.Idle? && HandlerOf(sig).NotCheck?
      modifies this
      ensures Valid() && main.Idle?
      ensures View() == old(View()).(wanted := false,
                                     gen := if old(wanted && capturing) then old(gen) + 1 else old(gen))
      ensures old(wanted && capturing) ==> forall w | 0 <= w < |workers| :: workers[w].gen < gen
      ensures signalled == if old(wanted && capturing) && proc.Some? && proc.value.worker < |workers|
                              && workers[proc.value.worker].attempt == proc.value.attempt
                              && workers[proc.value.worker].child.Running?
                           then proc else None
    {
      signalled := None;
      RunKeepsInv(past, steps, |steps|);
      ghost var s := View();
      assert Generations(s);
      Dispatch(sig);
      MainLine();
      assert View() == s.(main := if s.wanted then Withdraw else Idle);
      if !main.Idle? {
        MainLine();
        MainLine();
        assert View() == s.(wanted := false, main := if s.capturing then BumpCancel else Idle);
        if !main.Idle? {
          MainLine();
          signalled := KillCapture();
        }
      }
    }

    /** `run_capture`: starts the process, records it, waits, forgets it. */
    method RunCapture(w: nat, a: Attempt)
      requires Valid() && a.Honest() && w < |workers| && workers[w].pc.Begin?
      modifies this
      ensures Valid() && Inv(View()) && |workers| == |old(workers)| && main == old(main)
      ensures gen == old(gen) && wanted == old(wanted)
      ensures workers[w].gen == old(workers[w].gen) && workers[w].attempt == old(workers[w].attempt)
      ensures workers[w].pc == if a.starts then GateGen(a.rc == 0) else Unlinking
      ensures a.starts && a.output.Some? ==> file == Some(Scan(Child(w, workers[w].attempt), a.output.value))
    {
      RunKeepsInv(past, steps, |steps|);
      CaptureLine(w, a.starts);
      if a.starts {
        CaptureLine(w, true);
        if a.output.Some? {
          ChildWrites(w, a.output.value);
        }
        ChildExits(w, a.rc);
        CaptureLine(w, true);
        CaptureLine(w, true);
      }
      RunKeepsInv(past, steps, |steps|);
    }

    /** Lines 57 to 65: reading, moving, judging and delivering the image. */
    method HandleImage(w: nat, a: Attempt) returns (sent: Option<Scan>)
      requires Valid() && w < |workers| && workers[w].pc.Reading?
      requires a.starts && a.rc == 0 && a.output.Some?
      requires file == Some(Scan(Child(w, workers[w].attempt), a.output.value))
      modifies this
      ensures Valid() && |workers| == |old(workers)| && main == old(main)
      ensures gen == old(gen) && wanted == old(wanted) && workers[w].gen == old(workers[w].gen)
      ensures if a.Retries() && old(workers[w].attempt) == 0
              then workers[w].pc.Begin? && workers[w].attempt == 1 else workers[w].pc.Unlinking?
      ensures sent == if a.Read() && a.output.value >= 80
                      then Some(Scan(Child(w, old(workers[w].attempt)), a.output.value)) else None
      ensures last == if a.Read() then Some(Scan(Child(w, old(workers[w].attempt)), a.output.value)) else old(last)
    {
      RunKeepsInv(past, steps, |steps|);
      sent := None;
      assert LocalWorker(workers[w], w);
      DeliverLine(w, a.readable);
      if workers[w].pc.Replacing? {
        DeliverLine(w, a.moves);
        if workers[w].pc.Judging? {
          DeliverLine(w, true);
          if workers[w].pc.Delivering? {
            sent := Some(workers[w].pc.img);
            DeliverLine(w, true);
          }
        }
      }
    }

    /** Lines 54 to 66: the gate, and what is done with an image; `sent` is what went to the socket. */
    method HandleCapture(w: nat, a: Attempt) returns (sent: Option<Scan>)
      requires Valid() && a.starts && w < |workers| && workers[w].pc == GateGen(a.rc == 0)
      requires a.output.Some? ==> file == Some(Scan(Child(w, workers[w].attempt), a.output.value))
      requires a.Honest()
      modifies this
      ensures Valid() && Inv(View()) && |workers| == |old(workers)| && main == old(main)
      ensures gen == old(gen) && wanted == old(wanted) && workers[w].gen == old(workers[w].gen)
      ensures var mine := old(workers[w].gen == gen && wanted);
              && (mine && a.Retries() && old(workers[w].attempt) == 0 ==>
                    workers[w].pc.Begin? && workers[w].attempt == 1 && sent == None)
              && (!(mine && a.Retries() && old(workers[w].attempt) == 0) ==> workers[w].pc.Unlinking?)
              && sent == (if mine && a.Read() && a.output.value >= 80
                          then Some(Scan(Child(w, old(workers[w].attempt)), a.output.value)) else None)
              && last == if mine && a.Read()
                         then Some(Scan(Child(w, old(workers[w].attempt)), a.output.value)) else old(last)
    {
      RunKeepsInv(past, steps, |steps|);
      sent := None;
      assert LocalWorker(workers[w], w);
      DeliverLine(w, true);
      if workers[w].pc.GateWanted? {
        DeliverLine(w, true);
        if workers[w].pc.Reading? {
          sent := HandleImage(w, a);
        }
      }
      RunKeepsInv(past, steps, |steps|);
    }

    /** One pass of the attempt loop. */
    method Round(w: nat, a: Attempt) returns (sent: Option<Scan>)
      requires Valid() && w < |workers| && workers[w].pc.Begin? && a.Honest()
      modifies this
      ensures Valid() && |workers| == |old(workers)| && main == old(main)
      ensures gen == old(gen) && wanted == old(wanted) && workers[w].gen == old(workers[w].gen)
      ensures if old(workers[w].gen == gen && wanted) && a.Retries() && old(workers[w].attempt) == 0
              then workers[w].pc.Begin? && workers[w].attempt == 1 && sent == None
              else workers[w].pc.Unlinking?
      ensures sent == if old(workers[w].gen == gen && wanted) && a.Read() && a.output.value >= 80
                      then Some(Scan(Child(w, old(workers[w].attempt)), a.output.value)) else None
      ensures sent.Some? ==> last == sent
    {
      sent := None;
      RunCapture(w, a);
      if workers[w].pc.GateGen? {
        sent := HandleCapture(w, a);
      }
    }

    /**
      `capture_and_deliver` undisturbed: a worker of the current generation hands over exactly the
      outcome of its two rounds, an outdated one nothing, and either way everything is cleaned up.
     */
    method CaptureAndDeliver(w: nat, rounds: seq<Attempt>) returns (sent: Option<Scan>)
      requires Valid() && w < |workers| && workers[w].pc.Begin? && workers[w].attempt == 0
      requires |rounds| == 2 && rounds[0].Honest() && rounds[1].Honest()
      modifies this
      ensures Valid() && main == old(main) && gen == old(gen) && wanted == old(wanted)
      ensures sent == if old(workers[w].gen == gen && wanted) then Outcome(w, rounds[0], rounds[1]) else None
      ensures sent.Some? ==> last == sent
      ensures |workers| == |old(workers)| && !workers[w].Live() && !capturing && file.None? && proc.None?
    {
      sent := None;
      for attempt := 0 to 2
        invariant Valid() && |workers| == |old(workers)| && main == old(main)
        invariant gen == old(gen) && wanted == old(wanted) && workers[w].gen == old(workers[w].gen)
        invariant (workers[w].pc.Begin? || workers[w].pc.Unlinking?) && (sent.Some? ==> last == sent)
        invariant workers[w].pc.Begin? ==> workers[w].attempt == attempt && sent == None
        invariant (attempt == 0 ==> workers[w].pc.Begin?) && (attempt == 2 ==> workers[w].pc.Unlinking?)
        invariant attempt > 0 && workers[w].pc.Begin? ==> old(workers[w].gen == gen && wanted) && rounds[0].Retries()
        invariant workers[w].pc.Unlinking? ==>
                    sent == if old(workers[w].gen == gen && wanted) then Outcome(w, rounds[0], rounds[1]) else None
      {
        if workers[w].pc.Begin? {
          sent := Round(w, rounds[attempt]);
        }
      }
      CleanUp(w);
    }

    /** The `finally` of `capture_and_deliver`. */
    method CleanUp(w: nat)
      requires Valid() && w < |workers| && workers[w].pc.Unlinking?
      modifies this
      ensures Valid() && main == old(main) && gen == old(gen) && wanted == old(wanted) && last == old(last)
      ensures |workers| == |old(workers)| && !workers[w].Live() && !capturing && file.None? && proc.None?
    {
      DeliverLine(w, true);
      DeliverLine(w, true);
      RunKeepsInv(past, steps, |steps|);
    }
  }
}
