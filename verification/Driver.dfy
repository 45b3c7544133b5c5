/** The native driver: captured rows kept in a list that grows at its head, and the activation protocol. */
module Driver {
  import opened Base
  import opened Descramble
  import opened Scanner

  function Reverse<T>(s: seq<T>): (r: seq<T>)
    ensures |r| == |s|
    ensures forall k | 0 <= k < |s| :: r[k] == s[|s| - 1 - k]
  {
    seq(|s|, k requires 0 <= k < |s| => s[|s| - 1 - k])
  }

  lemma ReversePrepends<T>(x: T, s: seq<T>)
    ensures Reverse([x] + s) == Reverse(s) + [x]
  {
  }

  /** What a submission tells libfprint. */
  datatype Submission = RetryTooShort | Captured(lines: seq<Bytes>)

  /** How libfprint is told about the end of an activation. */
  datatype Notice = Nothing | DeactivateComplete(error: bool) | SessionError

  /** The states of the capture machine, in order. */
  datatype ActivateState = UploadPatch | OpenSession | AwaitFinger | ReadLines | ProcessLines {
    function Left(): nat {
      match this
      case UploadPatch => 5
      case OpenSession => 4
      case AwaitFinger => 3
      case ReadLines => 2
      case ProcessLines => 1
    }
  }

  class Device {
    var captureBuf: array?<byte>
    var captureLen: nat
    var rows: seq<Bytes>
    var linesRecorded: int
    var deactivating: bool
    var loopRunning: bool

    ghost var accepted: seq<Bytes>
    ghost var submitted: seq<Submission>

    /**
      `accepted` are all lines ever taken, `submitted` all that libfprint was told.  No accepted line is
      lost, repeated or reordered: each is in some image, or still pending.
     */
    ghost predicate Valid()
      reads this
    {
      && linesRecorded == |rows|
      && (forall k | 0 <= k < |rows| :: |rows[k]| == IMAGE_WIDTH)
      && captureLen <= (if captureBuf == null then 0 else captureBuf.Length)
      && (!loopRunning ==> captureBuf == null)
      && Lines(submitted) + Pending() == accepted
      && (forall k | 0 <= k < |submitted| && submitted[k].Captured? :: |submitted[k].lines| >= IMAGE_WIDTH)
    }

    function Stage(): Life
      reads this
    {
      Life(deactivating, loopRunning)
    }

    /** The kept rows in the order they came. */
    function Pending(): seq<Bytes>
      reads this
    {
      Reverse(rows)
    }

    function Buffered(): Bytes
      reads this, captureBuf
    {
      if captureBuf == null || captureLen > captureBuf.Length then [] else captureBuf[..captureLen]
    }

    constructor ()
      ensures Valid() && Pending() == [] && !deactivating && !loopRunning && captureBuf == null
      ensures accepted == [] && submitted == []
    {
      accepted, submitted := [], [];
      captureBuf, captureLen, rows, linesRecorded := null, 0, [], 0;
      deactivating, loopRunning := false, false;
    }

    /** Every accepted line of the buffer is put in front of the list, once. */
    method ProcessCapture()
      requires Valid() && captureBuf != null
      modifies this`rows, this`linesRecorded, this`accepted
      ensures Valid() && Pending() == old(Pending()) + Scan(old(Buffered()))
      ensures accepted == old(accepted) + Scan(old(Buffered()))
    {
      var b, n, i := captureBuf, captureLen, 0;
      var dec := new byte[LINE_WIDTH];
      ghost var stream := b[..n];
      while i + LINE_HDR + LINE_WIDTH <= n
        invariant 0 <= i <= n && captureBuf == b && captureLen == n && n <= b.Length && b[..n] == stream
        invariant Valid() && Pending() + ScanFrom(stream, i) == old(Pending()) + Scan(stream)
        invariant accepted + ScanFrom(stream, i) == old(accepted) + Scan(stream)
        modifies this`rows, this`linesRecorded, this`accepted, dec
        decreases n - i
      {
        ScanFromStep(stream, i);
        var taken := false;
        if b[i] == 0x01 && (b[i + 1] == 0x01 || b[i + 1] == 0xfe) && b[i + 3] == 0x00 && b[i + 7] == 0x00 {
          taken := DecodeLine(b, i, n - i, dec);
        }
        if taken {
          var keep := dec[..IMAGE_WIDTH];
          SliceOfPrefix(b[..], n, i + LINE_HDR, i + FRAME);
          ghost var before, earlier := Pending(), accepted;
          KeepRow(keep);
          RowMovesOver(before, keep, ScanFrom(stream, i + FRAME));
          RowMovesOver(earlier, keep, ScanFrom(stream, i + FRAME));
          i := i + LINE_HDR + LINE_WIDTH;
        } else {
          i := i + 1;
        }
      }
      ScanFromStep(stream, i);
      assert Pending() + [] == Pending() && accepted + [] == accepted;
    }

    /** `g_slist_prepend` and the counter. */
    method KeepRow(keep: Bytes)
      requires Valid() && |keep| == IMAGE_WIDTH
      modifies this`rows, this`linesRecorded, this`accepted
      ensures Valid() && Pending() == old(Pending()) + [keep] && accepted == old(accepted) + [keep]
    {
      ReversePrepends(keep, rows);
      accepted := accepted + [keep];
      rows := [keep] + rows;
      linesRecorded := linesRecorded + 1;
    }

    /** Too few rows are kept for the next capture; otherwise all are handed over, oldest first, and forgotten. */
    method SubmitImage() returns (e: Submission)
      requires Valid()
      modifies this`rows, this`linesRecorded, this`submitted
      ensures Valid() && submitted == old(submitted) + [e]
      ensures |old(Pending())| < IMAGE_WIDTH ==> e.RetryTooShort? && Pending() == old(Pending())
      ensures |old(Pending())| >= IMAGE_WIDTH ==> e == Captured(old(Pending())) && Pending() == []
    {
      if linesRecorded < IMAGE_WIDTH {
        LinesAppend(submitted, RetryTooShort);
        submitted := submitted + [RetryTooShort];
        return RetryTooShort;
      }
      rows := Reverse(rows);
      e := Captured(rows);
      LinesAppend(submitted, e);
      submitted := submitted + [e];
      rows := [];
      linesRecorded := 0;
    }

    /**
      One state of the capture machine.  The first reports the activation; the last scans a buffer that
      is there and not empty, submits, and ends the machine.
     */
    method ActivateRunState(state: ActivateState)
      returns (next: Option<ActivateState>, activated: bool, e: Option<Submission>)
      requires Valid()
      modifies this`rows, this`linesRecorded, this`accepted, this`submitted
      ensures Valid() && (activated <==> state.UploadPatch?)
      ensures if next.Some? then next.value.Left() == state.Left() - 1 else state.ProcessLines?
      ensures !state.ProcessLines? ==>
                e == None && Pending() == old(Pending()) && accepted == old(accepted) && submitted == old(submitted)
      ensures state.ProcessLines? ==> e.Some? && (Pending(), e.value) == Submit(old(Pending()), old(Buffered()))
      ensures state.ProcessLines? ==>
                accepted == old(accepted) + Scan(old(Buffered())) && submitted == old(submitted) + [e.value]
    {
      activated, e := false, None;
      match state {
        case UploadPatch =>
          activated := true;
          next := Some(OpenSession);
        case OpenSession =>
          next := Some(AwaitFinger);
        case AwaitFinger =>
          next := Some(ReadLines);
        case ReadLines =>
          next := Some(ProcessLines);
        case ProcessLines =>
          if captureBuf != null && captureLen != 0 {
            ProcessCapture();
          } else {
            NothingToScan();
            assert Pending() + [] == Pending() && accepted + [] == accepted;
          }
          var done := SubmitImage();
          e := Some(done);
          next := None;
      }
    }

    method ActivateComplete(error: bool) returns (n: Notice)
      requires Valid()
      modifies this`loopRunning, this`captureBuf, this`captureLen
      ensures Valid() && captureBuf == null && captureLen == 0 && Pending() == old(Pending())
      ensures (Stage(), n) == Completes(old(Stage()), error)
      ensures !loopRunning && deactivating == old(deactivating)
      ensures n == if deactivating then DeactivateComplete(error) else if error then SessionError else Nothing
    {
      loopRunning := false;
      captureBuf := null;
      captureLen := 0;
      if deactivating {
        n := DeactivateComplete(error);
      } else if error {
        n := SessionError;
      } else {
        n := Nothing;
      }
    }

    method Activate()
      requires Valid()
      modifies this`deactivating, this`loopRunning
      ensures Valid() && Stage() == Life(false, true)
    {
      deactivating := false;
      loopRunning := true;
    }

    method Deactivate() returns (n: Notice)
      requires Valid()
      modifies this`deactivating
      ensures Valid()
      ensures (Stage(), n) == Deactivates(old(Stage()))
      ensures loopRunning == old(loopRunning) && deactivating == (old(deactivating) || loopRunning)
      ensures n == if loopRunning then Nothing else DeactivateComplete(false)
    {
      if loopRunning {
        deactivating := true;
        n := Nothing;
      } else {
        n := DeactivateComplete(false);
      }
    }

    /**
      Closing frees the rows and the buffer and leaves their counters, so the device stays consistent
      exactly when it has neither.  A device whose capture is over has no buffer.
     */
    method Close()
      requires Valid()
      modifies this`captureBuf, this`rows
      ensures rows == [] && captureBuf == null && linesRecorded == |old(Pending())|
      ensures Valid() <==> old(Pending()) == [] && captureLen == 0
      ensures !loopRunning ==> captureLen == 0
    {
      captureBuf := null;
      rows := [];
    }

    /**
      Any legal order of calls, those of libfprint and those of the capture machine: what was accepted is
      what the scanned buffers hold, the submissions are those of the captures one by one, and every
      deactivation is answered once or still owed.  `ns` is what libfprint is told at each call.
     */
    method Serve(cs: seq<Call>) returns (ns: seq<Notice>, answered: nat)
      requires Valid() && LegalAll(Stage(), cs)
      modifies this
      ensures Valid() && Stage() == LifeAfter(old(Stage()), cs) && ns == Notices(old(Stage()), cs)
      ensures accepted == old(accepted) + ScanAll(Scanned(old(Buffered()), cs))
      ensures Pending() == SubmitAll(old(Pending()), Scanned(old(Buffered()), cs)).0
      ensures submitted == old(submitted) + SubmitAll(old(Pending()), Scanned(old(Buffered()), cs)).1
      ensures |old(Pending())| < IMAGE_WIDTH ==> |Pending()| < IMAGE_WIDTH
      ensures answered + (if Owed(Stage()) then 1 else 0) == Requests(cs) + (if Owed(old(Stage())) then 1 else 0)
    {
      ns, answered := [], 0;
      for k := 0 to |cs|
        invariant Valid() && LegalAll(Stage(), cs[k..]) && LifeAfter(Stage(), cs[k..]) == LifeAfter(old(Stage()), cs)
        invariant accepted + ScanAll(Scanned(Buffered(), cs[k..])) == old(accepted + ScanAll(Scanned(Buffered(), cs)))
        invariant SubmitAll(Pending(), Scanned(Buffered(), cs[k..])).0
                  == old(SubmitAll(Pending(), Scanned(Buffered(), cs)).0)
        invariant submitted + SubmitAll(Pending(), Scanned(Buffered(), cs[k..])).1
                  == old(submitted + SubmitAll(Pending(), Scanned(Buffered(), cs)).1)
        invariant answered + Answers(Stage(), cs[k..]) == Answers(old(Stage()), cs)
        invariant ns + Notices(Stage(), cs[k..]) == Notices(old(Stage()), cs)
      {
        assert cs[k..][0] == cs[k] && cs[k..][1..] == cs[k + 1..];
        ServesCall(Pending(), Buffered(), cs[k..], accepted, submitted);
        var n := Take(cs[k]);
        ns := ns + [n];
        if n.DeactivateComplete? { answered := answered + 1; }
      }
      DeactivationsAreAnswered(old(Stage()), cs);
      if |old(Pending())| < IMAGE_WIDTH { PendingIsShort(old(Pending()), Scanned(old(Buffered()), cs)); }
    }

    method Take(c: Call) returns (n: Notice)
      requires Valid() && Legal(Stage(), c)
      modifies this
      ensures Valid() && (Stage(), n) == Handle(old(Stage()), c)
      ensures Buffered() == BufferAfter(old(Buffered()), c)
      ensures if c.Scans()
              then && accepted == old(accepted) + Scan(old(Buffered()))
                   && Pending() == Submit(old(Pending()), old(Buffered())).0
                   && submitted == old(submitted) + [Submit(old(Pending()), old(Buffered())).1]
              else accepted == old(accepted) && Pending() == old(Pending()) && submitted == old(submitted)
    {
      match c
      case CallActivate =>
        Activate();
        n := Nothing;
      case CallDeactivate =>
        n := Deactivate();
      case CallComplete(error) =>
        n := ActivateComplete(error);
      case CallState(state) =>
        var _, _, _ := ActivateRunState(state);
        n := Nothing;
      case CallRead(data) =>
        captureBuf := new byte[|data|](i requires 0 <= i < |data| => data[i]);
        captureLen := |data|;
        n := Nothing;
    }

    /** One capture of a single blank line. */
    method ReadRow()
      requires Valid() && !loopRunning && Pending() == []
      modifies this
      ensures Valid() && !loopRunning && |Pending()| == 1
    {
      Activate();
      var _ := Take(CallRead(BlankLine()));
      BlankLineScans();
      var _ := Take(CallState(ProcessLines));
      var _ := Take(CallComplete(false));
    }

    /** A device closed with a row pending: the list is empty, its counter is not. */
    static method ClosedWithRow() returns (d: Device)
      ensures fresh(d) && !d.Valid() && d.rows == [] && d.linesRecorded == 1 && !d.loopRunning
    {
      d := new Device();
      d.ReadRow();
      d.Close();
    }

    /** One activation, from start to completion; `data` is what the reading state puts into the buffer. */
    method Capture(data: array<byte>, len: nat) returns (activations: nat, e: Submission, n: Notice)
      requires Valid() && len <= data.Length && !loopRunning
      modifies this
      ensures Valid() && !loopRunning && captureBuf == null
      ensures activations == 1 && n == Nothing
      ensures (Pending(), e) == Submit(old(Pending()), data[..len])
    {
      Activate();
      activations, e := 0, RetryTooShort;
      var state, done := UploadPatch, false;
      while !done
        invariant Valid() && loopRunning && !deactivating
        invariant activations == if state.UploadPatch? then 0 else 1
        invariant state.ProcessLines? ==> captureBuf == data && captureLen == len
        invariant !done ==> Pending() == old(Pending())
        invariant done ==> !state.UploadPatch? && (Pending(), e) == Submit(old(Pending()), data[..len])
        decreases if done then 0 else state.Left()
      {
        if state.ReadLines? {
          captureBuf, captureLen := data, len;
        }
        var next, activated, submitted := ActivateRunState(state);
        if activated { activations := activations + 1; }
        if next.Some? {
          state := next.value;
        } else {
          done, e := true, submitted.value;
        }
      }
      n := ActivateComplete(false);
    }
  }

  lemma RowMovesOver(before: seq<Bytes>, row: Bytes, rest: seq<Bytes>)
    ensures before + ([row] + rest) == (before + [row]) + rest
  {
  }

  function BlankLine(): Bytes { [1, 1, 0, 0, 0, 0, 8, 0] + Repeat(0, LINE_WIDTH) }

  lemma BlankLineScans()
    ensures |Scan(BlankLine())| == 1
  {
    ScanFromStep(BlankLine(), 0);
    ScanFromStep(BlankLine(), FRAME);
  }

  lemma NothingToScan()
    ensures Scan([]) == []
  {
  }

  // ---- The ledger over a run of captures --------------------------------------------------

  /** One capture: the rows still pending afterwards, and what was submitted. */
  function Submit(pending: seq<Bytes>, buf: Bytes): (seq<Bytes>, Submission) {
    var all := pending + Scan(buf);
    if |all| < IMAGE_WIDTH then (all, RetryTooShort) else ([], Captured(all))
  }

  function SubmitAll(pending: seq<Bytes>, bufs: seq<Bytes>): (seq<Bytes>, seq<Submission>)
    decreases |bufs|
  {
    if bufs == [] then (pending, [])
    else
      var (next, e) := Submit(pending, bufs[0]);
      var (last, es) := SubmitAll(next, bufs[1..]);
      (last, [e] + es)
  }

  function Lines(es: seq<Submission>): seq<Bytes> {
    if es == [] then [] else (if es[0].Captured? then es[0].lines else []) + Lines(es[1..])
  }

  lemma {:induction false} LinesAppend(es: seq<Submission>, e: Submission)
    ensures Lines(es + [e]) == Lines(es) + (if e.Captured? then e.lines else [])
  {
    if es == [] {
      assert [] + [e] == [e] && [e][1..] == [];
    } else {
      LinesAppend(es[1..], e);
      assert (es + [e])[1..] == es[1..] + [e];
    }
  }

  function ScanAll(bufs: seq<Bytes>): seq<Bytes> {
    if bufs == [] then [] else Scan(bufs[0]) + ScanAll(bufs[1..])
  }

  /** No accepted line is lost, repeated or reordered: all of them are in some image or still pending. */
  lemma {:induction false} LedgerBalances(pending: seq<Bytes>, bufs: seq<Bytes>)
    ensures var (last, es) := SubmitAll(pending, bufs);
            && |es| == |bufs|
            && Lines(es) + last == pending + ScanAll(bufs)
            && (forall k | 0 <= k < |es| && es[k].Captured? :: |es[k].lines| >= IMAGE_WIDTH)
    decreases |bufs|
  {
    if bufs != [] {
      var (next, e) := Submit(pending, bufs[0]);
      var (last, es) := SubmitAll(next, bufs[1..]);
      LedgerBalances(next, bufs[1..]);
      var image := if e.Captured? then e.lines else [];
      assert image + next == pending + Scan(bufs[0]);
      assert ([e] + es)[1..] == es;
      Regroup(image, Lines(es), last, next, ScanAll(bufs[1..]), pending, Scan(bufs[0]));
    }
  }

  lemma Regroup<T>(image: seq<T>, lines: seq<T>, last: seq<T>, next: seq<T>, later: seq<T>, pending: seq<T>,
                   now: seq<T>)
    requires image + next == pending + now && lines + last == next + later
    ensures (image + lines) + last == pending + (now + later)
  {
    assert (image + lines) + last == image + (next + later) == (image + next) + later;
    assert (pending + now) + later == pending + (now + later);
  }

  /** Once a capture has been processed fewer than 200 rows are pending. */
  lemma {:induction false} PendingIsShort(pending: seq<Bytes>, bufs: seq<Bytes>)
    requires |pending| < IMAGE_WIDTH
    ensures |SubmitAll(pending, bufs).0| < IMAGE_WIDTH
    decreases |bufs|
  {
    if bufs != [] {
      PendingIsShort(Submit(pending, bufs[0]).0, bufs[1..]);
    }
  }

  // ---- Activation and deactivation --------------------------------------------------------

  datatype Life = Life(deactivating: bool, loopRunning: bool)

  function Completes(l: Life, error: bool): (Life, Notice) {
    (l.(loopRunning := false),
     if l.deactivating then DeactivateComplete(error) else if error then SessionError else Nothing)
  }

  function Deactivates(l: Life): (Life, Notice) {
    if l.loopRunning then (l.(deactivating := true), Nothing) else (l, DeactivateComplete(false))
  }

  /** The last two are the capture machine's: running a state, and reading bytes into the buffer. */
  datatype Call =
    | CallActivate
    | CallDeactivate
    | CallComplete(error: bool)
    | CallState(state: ActivateState)
    | CallRead(data: Bytes)
  {
    predicate Scans() { CallState? && state.ProcessLines? }
  }

  function Handle(l: Life, c: Call): (Life, Notice) {
    match c
    case CallActivate => (Life(false, true), Nothing)
    case CallDeactivate => Deactivates(l)
    case CallComplete(error) => Completes(l, error)
    case CallState(_) => (l, Nothing)
    case CallRead(_) => (l, Nothing)
  }

  function BufferAfter(buf: Bytes, c: Call): Bytes {
    match c
    case CallComplete(_) => []
    case CallRead(data) => data
    case _ => buf
  }

  /** The buffers the calls scan, in order. */
  function Scanned(buf: Bytes, cs: seq<Call>): seq<Bytes>
    decreases |cs|
  {
    if cs == [] then []
    else
      (if cs[0].Scans() then [buf] else []) + Scanned(BufferAfter(buf, cs[0]), cs[1..])
  }

  /** What the first call adds, and what is left to the others. */
  lemma ServesCall(pending: seq<Bytes>, buf: Bytes, cs: seq<Call>, accepted: seq<Bytes>, submitted: seq<Submission>)
    requires cs != []
    ensures var (all, later) := (Scanned(buf, cs), Scanned(BufferAfter(buf, cs[0]), cs[1..]));
            if cs[0].Scans() then
              var (next, e) := Submit(pending, buf);
              && accepted + ScanAll(all) == (accepted + Scan(buf)) + ScanAll(later)
              && SubmitAll(pending, all).0 == SubmitAll(next, later).0
              && submitted + SubmitAll(pending, all).1 == (submitted + [e]) + SubmitAll(next, later).1
            else all == later
  {
    var later := Scanned(BufferAfter(buf, cs[0]), cs[1..]);
    if cs[0].Scans() {
      assert ([buf] + later)[1..] == later;
    } else {
      assert [] + later == later;
    }
  }

  /** A deactivation that waits for the capture machine to end. */
  predicate Owed(l: Life) { l.deactivating && l.loopRunning }

  /** libfprint activates an idle device and asks for one deactivation at a time; the machine acts while it runs. */
  predicate Legal(l: Life, c: Call) {
    match c
    case CallActivate => !l.loopRunning
    case CallDeactivate => !Owed(l)
    case CallComplete(_) => l.loopRunning
    case CallState(_) => l.loopRunning
    case CallRead(_) => l.loopRunning
  }

  predicate LegalAll(l: Life, cs: seq<Call>)
    decreases |cs|
  {
    cs == [] || (Legal(l, cs[0]) && LegalAll(Handle(l, cs[0]).0, cs[1..]))
  }

  function LifeAfter(l: Life, cs: seq<Call>): Life
    decreases |cs|
  {
    if cs == [] then l else LifeAfter(Handle(l, cs[0]).0, cs[1..])
  }

  /** What libfprint is told at each call. */
  function Notices(l: Life, cs: seq<Call>): seq<Notice>
    decreases |cs|
  {
    if cs == [] then [] else [Handle(l, cs[0]).1] + Notices(Handle(l, cs[0]).0, cs[1..])
  }

  lemma {:induction false} NoticeAt(l: Life, cs: seq<Call>, k: nat)
    requires k < |cs|
    ensures |Notices(l, cs)| == |cs| && Notices(l, cs)[k] == Handle(LifeAfter(l, cs[..k]), cs[k]).1
    decreases |cs|
  {
    if k > 0 {
      NoticeAt(Handle(l, cs[0]).0, cs[1..], k - 1);
      assert cs[..k][1..] == cs[1..][..k - 1];
    } else if |cs| > 1 {
      NoticeAt(Handle(l, cs[0]).0, cs[1..], 0);
    }
  }

  lemma {:induction false} LegalPrefix(l: Life, cs: seq<Call>, k: nat)
    requires LegalAll(l, cs) && k < |cs|
    ensures LegalAll(l, cs[..k]) && Legal(LifeAfter(l, cs[..k]), cs[k])
    ensures LifeAfter(l, cs[..k + 1]) == Handle(LifeAfter(l, cs[..k]), cs[k]).0
    decreases |cs|
  {
    if k > 0 {
      LegalPrefix(Handle(l, cs[0]).0, cs[1..], k - 1);
      assert cs[..k][1..] == cs[1..][..k - 1] && cs[..k + 1][1..] == cs[1..][..k];
    } else {
      assert cs[..1] == [cs[0]] && cs[..1][1..] == [];
    }
  }

  /** A capture runs after `k` calls: it was activated and has not completed since. */
  predicate Running(cs: seq<Call>, k: nat)
    requires k <= |cs|
  {
    k > 0 && (cs[k - 1].CallActivate? || (!cs[k - 1].CallComplete? && Running(cs, k - 1)))
  }

  /** A deactivation was asked for since the last activation before call `k`. */
  predicate Asked(cs: seq<Call>, k: nat)
    requires k <= |cs|
  {
    k > 0 && (cs[k - 1].CallDeactivate? || (!cs[k - 1].CallActivate? && Asked(cs, k - 1)))
  }

  /** The two flags say what was called. */
  lemma {:induction false} FlagsTellHistory(cs: seq<Call>, k: nat)
    requires LegalAll(Life(false, false), cs) && k <= |cs|
    ensures var l := LifeAfter(Life(false, false), cs[..k]);
            l.loopRunning == Running(cs, k) && (l.loopRunning ==> l.deactivating == Asked(cs, k))
  {
    if k > 0 {
      FlagsTellHistory(cs, k - 1);
      LegalPrefix(Life(false, false), cs, k - 1);
    }
  }

  /**
    When a capture ends, libfprint gets the error with the end of the deactivation it asked for while the
    capture ran; if it asked for none, an error is a session error, and success is not reported.
   */
  lemma CompletionIsReported(cs: seq<Call>, k: nat)
    requires LegalAll(Life(false, false), cs) && k < |cs| && cs[k].CallComplete?
    ensures |Notices(Life(false, false), cs)| == |cs| && Running(cs, k)
    ensures Notices(Life(false, false), cs)[k] ==
            if Asked(cs, k) then DeactivateComplete(cs[k].error) else if cs[k].error then SessionError else Nothing
  {
    NoticeAt(Life(false, false), cs, k);
    LegalPrefix(Life(false, false), cs, k);
    FlagsTellHistory(cs, k);
  }

  function Requests(cs: seq<Call>): nat {
    if cs == [] then 0 else (if cs[0].CallDeactivate? then 1 else 0) + Requests(cs[1..])
  }

  function Answers(l: Life, cs: seq<Call>): nat
    decreases |cs|
  {
    if cs == [] then 0
    else (if Handle(l, cs[0]).1.DeactivateComplete? then 1 else 0) + Answers(Handle(l, cs[0]).0, cs[1..])
  }

  /** Every deactivation is answered exactly once: at once, or when the running capture ends. */
  lemma {:induction false} DeactivationsAreAnswered(l: Life, cs: seq<Call>)
    requires LegalAll(l, cs)
    ensures Answers(l, cs) + (if Owed(LifeAfter(l, cs)) then 1 else 0) == Requests(cs) + (if Owed(l) then 1 else 0)
    decreases |cs|
  {
    if cs != [] {
      DeactivationsAreAnswered(Handle(l, cs[0]).0, cs[1..]);
    }
  }
}
