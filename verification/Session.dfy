/** The transmit session: a transmit thread, a receive worker, a one-shot timer and the main thread, talking
    through one first-in first-out event queue.  Every step is atomic: a thread's post, a key, a tick, or
    the main thread handling one event. */
module Session {
  import opened Bytes

  /** Queued events.  The numbers are not in the program: `run` is the send during which an event was
      posted, `visit` how often the transmit scene had been left when a confirmation was posted. */
  datatype Msg =
    | TxFinished(run: nat)
    | AckSuccess(run: nat)
    | AckFail(run: nat)
    | AckTimeout(run: nat)
    | StatusLeft
    | StatusOk
    | StatusRight(run: nat)
    | ConfirmSend(visit: nat)
    | Unrelated

  /** The transmit thread's handle: absent, at work, or at its end but not yet joined. */
  datatype Tx = NoThread | Sending | Ended

  datatype Timer = NoTimer | Armed | Fired

  /** What the status screen shows. */
  datatype Mode = Blank | Transmit | Waiting | Connected(text: seq<byte>) | Result

  /** `ackText` is the buffer that the receive worker writes and the main thread reads.  Besides the numbers,
      `heard` is not in the program: the texts of all successes heard since the send began. */
  datatype State = State(
    inTransmit: bool, visits: nat, run: nat, queue: seq<Msg>,
    tx: Tx, txOk: bool, txCancel: bool,
    worker: bool, timer: Timer,
    retryAllowed: bool, dismissTicks: nat, mode: Mode, ackEnabled: bool,
    ackText: seq<byte>, heard: seq<seq<byte>>)

  const DISMISS_SENT_TICKS := 25
  const DISMISS_CONNECTED := 60

  // ---------------------------------------------------------------- what the handlers do

  function StopListener(s: State): State {
    s.(timer := NoTimer, worker := false)
  }

  function StartListener(s: State): State {
    s.(ackText := [], worker := true, timer := Armed, mode := Waiting)
  }

  function StopTx(s: State): State {
    if s.tx.NoThread? then s else s.(txCancel := true, tx := NoThread)
  }

  function StartTx(s: State): State {
    StopTx(StopListener(s)).(txCancel := false, txOk := false, dismissTicks := 0, retryAllowed := false,
                             mode := Transmit, tx := Sending, run := s.run + 1, heard := [])
  }

  function ShowFailure(s: State): State {
    s.(retryAllowed := true, dismissTicks := 0, mode := Result)
  }

  function OnTxFinished(s: State): State {
    var s := StopTx(s);
    if !s.txOk then ShowFailure(s)
    else if s.ackEnabled then StartListener(s)
    else s.(mode := Result, dismissTicks := DISMISS_SENT_TICKS)
  }

  function OnAckSuccess(s: State): State {
    StopListener(s).(retryAllowed := false, mode := Connected(s.ackText), dismissTicks := DISMISS_CONNECTED)
  }

  /** Leaving the scene for the main menu. */
  function Dismiss(s: State): State {
    StopListener(StopTx(s)).(dismissTicks := 0, inTransmit := false, visits := s.visits + 1)
  }

  function OnEvent(s: State, m: Msg): State {
    if s.inTransmit then
      match m
      case TxFinished(_) => OnTxFinished(s)
      case AckSuccess(_) => OnAckSuccess(s)
      case AckFail(_) => ShowFailure(StopListener(s))
      case AckTimeout(_) => ShowFailure(StopListener(s))
      case StatusLeft => Dismiss(s)
      case StatusOk => Dismiss(s)
      case StatusRight(_) => if s.retryAllowed then StartTx(s) else s
      case ConfirmSend(_) => s
      case Unrelated => s
    else if m == ConfirmSend(s.visits) then StartTx(s.(inTransmit := true))
    else s
  }

  function OnTick(s: State): State {
    if !s.inTransmit || s.dismissTicks == 0 then s
    else if s.dismissTicks == 1 then Dismiss(s)
    else s.(dismissTicks := s.dismissTicks - 1)
  }

  function Post(s: State, m: Msg): State {
    s.(queue := s.queue + [m])
  }

  // ---------------------------------------------------------------- all steps

  datatype Key = Left | Right | Ok

  datatype Action =
    | TxProgress
    | TxEnds(ok: bool)
    | WorkerHears(ack: Option<seq<byte>>)
    | TimerFires
    | Press(key: Key)
    | Confirm
    | PostUnrelated
    | Handle
    | Tick
    | Back
    | SetAck(on: bool)

  function KeyMsg(s: State, k: Key): Msg {
    match k
    case Left => StatusLeft
    case Right => StatusRight(s.run)
    case Ok => StatusOk
  }

  /** The worker has decoded an acknowledgement: the address text of a success goes into the application's
      buffer before the event is posted. */
  function Hear(s: State, ack: Option<seq<byte>>): State {
    if ack.None? then Post(s, AckFail(s.run))
    else Post(s.(ackText := ack.value, heard := s.heard + [ack.value]), AckSuccess(s.run))
  }

  /** One step; an action that is not possible leaves the state alone. */
  function Next(s: State, a: Action): State {
    match a
    case TxProgress => if s.tx.Sending? then s.(mode := Transmit) else s
    case TxEnds(ok) =>
      if !s.tx.Sending? then s
      else if s.txCancel then s.(txOk := ok, tx := Ended)
      else Post(s.(txOk := ok, tx := Ended), TxFinished(s.run))
    case WorkerHears(ack) => if s.worker then Hear(s, ack) else s
    case TimerFires => if s.timer.Armed? then Post(s.(timer := Fired), AckTimeout(s.run)) else s
    case Press(k) => if s.inTransmit && (s.mode.Result? || s.mode.Connected?) then Post(s, KeyMsg(s, k)) else s
    case Confirm => if s.inTransmit then s else Post(s, ConfirmSend(s.visits))
    case PostUnrelated => Post(s, Unrelated)
    case Handle => if s.queue == [] then s else OnEvent(s.(queue := s.queue[1..]), s.queue[0])
    case Tick => OnTick(s)
    case Back => if s.inTransmit then Dismiss(s) else s
    case SetAck(on) => if s.inTransmit then s else s.(ackEnabled := on)
  }

  function Init(ackEnabled: bool): State {
    State(false, 0, 0, [], NoThread, false, false, false, NoTimer, false, 0, Blank, ackEnabled, [], [])
  }

  function RunAll(s: State, acts: seq<Action>): State {
    if acts == [] then s else Next(RunAll(s, acts[..|acts| - 1]), acts[|acts| - 1])
  }

  // ---------------------------------------------------------------- the invariant

  /** Events that report on a send. */
  predicate Tagged(m: Msg) {
    m.TxFinished? || m.AckSuccess? || m.AckFail? || m.AckTimeout?
  }

  /** Threads and handles. */
  ghost predicate Handles(s: State) {
    && (s.worker <==> !s.timer.NoTimer?)
    && !(s.worker && !s.tx.NoThread?)
    && (!s.inTransmit ==> !s.worker && s.tx.NoThread?)
    && (!s.tx.NoThread? ==> !s.txCancel)
  }

  /** What the screen says about the threads, and when a retry is on offer. */
  ghost predicate Screen(s: State) {
    s.inTransmit ==>
      && (!s.tx.NoThread? ==> s.mode.Transmit? && !s.retryAllowed)
      && (s.worker ==> s.mode.Waiting? && !s.retryAllowed)
      && (s.tx.NoThread? && !s.worker ==> s.mode.Result? || s.mode.Connected?)
  }

  /** Which reports can be waiting while the scene is shown: only of the current send, and only from what
      is live or has just been. */
  ghost predicate Reports(s: State) {
    s.inTransmit ==>
      && (forall i :: 0 <= i < |s.queue| && Tagged(s.queue[i]) ==>
            && s.queue[i].run == s.run
            && (if s.queue[i].TxFinished? then s.tx.Ended? else s.tx.NoThread?))
      && (forall i, j :: 0 <= i < j < |s.queue| ==> !(s.queue[i].TxFinished? && s.queue[j].TxFinished?))
      && (s.tx.Ended? ==> TxFinished(s.run) in s.queue)
      && (s.timer.Fired? ==> AckTimeout(s.run) in s.queue)
  }

  /** Queue order.  A retry key pressed in this send comes after every report of it; one left over from an
      earlier send comes before, and there is none left once a retry is on offer.  A confirmation that will
      open the scene comes after everything that was posted in it. */
  ghost predicate Order(s: State) {
    && (forall i :: 0 <= i < |s.queue| && s.queue[i].StatusRight? ==> s.queue[i].run <= s.run)
    && (forall i :: 0 <= i < |s.queue| && s.queue[i].ConfirmSend? ==> s.queue[i].visit <= s.visits)
    && (s.inTransmit ==>
          && (forall i :: 0 <= i < |s.queue| && s.queue[i] == StatusRight(s.run) ==> s.tx.NoThread? && !s.worker)
          && (forall i, j :: 0 <= i < j < |s.queue| && s.queue[i] == StatusRight(s.run) ==> !Tagged(s.queue[j]))
          && (forall i, j :: 0 <= i < j < |s.queue| && Tagged(s.queue[i]) && s.queue[j].StatusRight? ==> s.queue[j].run == s.run)
          && (s.retryAllowed ==> forall i :: 0 <= i < |s.queue| && s.queue[i].StatusRight? ==> s.queue[i].run == s.run))
    && (!s.inTransmit ==>
          forall i, j :: 0 <= i < j < |s.queue| && s.queue[i] == ConfirmSend(s.visits)
                         ==> !Tagged(s.queue[j]) && !s.queue[j].StatusRight?)
  }

  ghost predicate Inv(s: State) {
    Handles(s) && Screen(s) && Reports(s) && Order(s)
  }

  // ---------------------------------------------------------------- every step keeps it

  /** What may be posted, and when. */
  ghost predicate Postable(s: State, m: Msg) {
    && (Tagged(m) ==> s.inTransmit && m.run == s.run && !m.TxFinished? && s.worker)
    && (m.StatusRight? ==> s.inTransmit && m.run == s.run && s.tx.NoThread? && !s.worker)
    && (m.ConfirmSend? ==> !s.inTransmit && m.visit == s.visits)
  }

  lemma PostKeeps(s: State, m: Msg)
    requires Inv(s) && Postable(s, m)
    ensures Inv(Post(s, m))
  {
    PostKeepsReports(s, m);
    PostKeepsOrder(s, m);
  }

  lemma PostKeepsReports(s: State, m: Msg)
    requires Handles(s) && Reports(s) && Postable(s, m)
    ensures Reports(Post(s, m))
  {
    var q := s.queue + [m];
    assert s.timer.Fired? && s.inTransmit ==> AckTimeout(s.run) in q;
    assert s.tx.Ended? && s.inTransmit ==> TxFinished(s.run) in q;
  }

  lemma PostKeepsOrder(s: State, m: Msg)
    requires Inv(s) && Postable(s, m)
    ensures Order(Post(s, m))
  {}

  lemma TxEndsKeeps(s: State, ok: bool)
    requires Inv(s)
    ensures Inv(Next(s, TxEnds(ok)))
  {
    if s.tx.Sending? {
      var t := Next(s, TxEnds(ok));
      assert t.queue[|s.queue|] == TxFinished(t.run);
    }
  }

  lemma TimerFiresKeeps(s: State)
    requires Inv(s)
    ensures Inv(Next(s, TimerFires))
  {
    if s.timer.Armed? {
      var t := Next(s, TimerFires);
      PostKeeps(s, AckTimeout(s.run));
      assert t.queue[|s.queue|] == AckTimeout(t.run);
    }
  }

  /** Leaving the scene: nothing is live, and what is left in the queue can no longer open it. */
  lemma DismissKeeps(s: State)
    requires Handles(s) && s.inTransmit
    requires forall i :: 0 <= i < |s.queue| && s.queue[i].ConfirmSend? ==> s.queue[i].visit <= s.visits
    requires forall i :: 0 <= i < |s.queue| && s.queue[i].StatusRight? ==> s.queue[i].run <= s.run
    ensures Inv(Dismiss(s))
  {}

  /** Starting a send with no report waiting. */
  lemma StartTxKeeps(s: State)
    requires s.inTransmit
    requires forall i :: 0 <= i < |s.queue| ==> !Tagged(s.queue[i])
    requires forall i :: 0 <= i < |s.queue| && s.queue[i].ConfirmSend? ==> s.queue[i].visit <= s.visits
    requires forall i :: 0 <= i < |s.queue| && s.queue[i].StatusRight? ==> s.queue[i].run <= s.run
    ensures Inv(StartTx(s))
  {}

  /** The queue without its head. */
  function Pop(s: State): State
    requires s.queue != []
  {
    s.(queue := s.queue[1..])
  }

  /** Dropping an event that nobody reports with keeps everything. */
  lemma PopKeeps(s: State)
    requires Inv(s) && s.queue != [] && (s.inTransmit ==> !Tagged(s.queue[0]))
    ensures Inv(Pop(s))
  {
    PopKeepsReports(s);
    PopKeepsOrder(s);
  }

  lemma PopKeepsReports(s: State)
    requires Reports(s) && s.queue != [] && (s.inTransmit ==> !Tagged(s.queue[0]))
    ensures Reports(Pop(s))
  {
    var q := s.queue[1..];
    assert s.queue == [s.queue[0]] + q;
    assert forall i :: 0 <= i < |q| ==> q[i] == s.queue[i + 1];
  }

  lemma PopKeepsOrder(s: State)
    requires Order(s) && s.queue != []
    ensures Order(Pop(s))
  {
    var q := s.queue[1..];
    assert forall i :: 0 <= i < |q| ==> q[i] == s.queue[i + 1];
  }

  /** A report of the current send was waiting, so nothing else of that kind is left over. */
  lemma TxFinishedKeeps(s: State)
    requires Inv(s) && s.inTransmit && s.queue != [] && s.queue[0].TxFinished?
    ensures s.tx.Ended? && !s.worker
    ensures Inv(OnTxFinished(Pop(s)))
  {
    var q := s.queue[1..];
    assert forall i :: 0 <= i < |q| ==> q[i] == s.queue[i + 1];
    assert forall i :: 0 <= i < |q| ==> !Tagged(q[i]);
  }

  /** Behind a report there are only retry keys of the current send, and they come last. */
  lemma BehindReport(s: State)
    requires Inv(s) && s.inTransmit && s.queue != [] && Tagged(s.queue[0])
    ensures forall i :: 0 <= i < |s.queue[1..]| && s.queue[1..][i].StatusRight? ==> s.queue[1..][i].run == s.run
    ensures forall i, j :: 0 <= i < j < |s.queue[1..]| && s.queue[1..][i].StatusRight? ==> !Tagged(s.queue[1..][j])
    ensures forall i :: 0 <= i < |s.queue[1..]| && s.queue[1..][i].ConfirmSend? ==> s.queue[1..][i].visit <= s.visits
  {
    var q := s.queue[1..];
    assert forall i :: 0 <= i < |q| ==> q[i] == s.queue[i + 1];
  }

  /** A scene with a result on the screen and nothing live. */
  lemma ResultKeeps(s: State)
    requires s.inTransmit && s.tx.NoThread? && !s.worker && s.timer.NoTimer? && (s.mode.Result? || s.mode.Connected?)
    requires forall i :: 0 <= i < |s.queue| && Tagged(s.queue[i]) ==> s.queue[i].run == s.run && !s.queue[i].TxFinished?
    requires forall i :: 0 <= i < |s.queue| && s.queue[i].StatusRight? ==> s.queue[i].run == s.run
    requires forall i, j :: 0 <= i < j < |s.queue| && s.queue[i].StatusRight? ==> !Tagged(s.queue[j])
    requires forall i :: 0 <= i < |s.queue| && s.queue[i].ConfirmSend? ==> s.queue[i].visit <= s.visits
    ensures Inv(s)
  {}

  lemma AckKeeps(s: State)
    requires Inv(s) && s.inTransmit && s.queue != [] && Tagged(s.queue[0]) && !s.queue[0].TxFinished?
    ensures Inv(OnEvent(Pop(s), s.queue[0]))
  {
    var q := s.queue[1..];
    BehindReport(s);
    assert forall i :: 0 <= i < |q| ==> q[i] == s.queue[i + 1];
    ResultKeeps(OnEvent(Pop(s), s.queue[0]));
  }

  lemma KeyKeeps(s: State)
    requires Inv(s) && s.inTransmit && s.queue != [] && (s.queue[0].StatusRight? ==> s.retryAllowed)
    requires s.queue[0].StatusLeft? || s.queue[0].StatusOk? || s.queue[0].StatusRight?
    ensures Inv(OnEvent(Pop(s), s.queue[0]))
  {
    var q := s.queue[1..];
    assert forall i :: 0 <= i < |q| ==> q[i] == s.queue[i + 1];
    if s.queue[0].StatusRight? {
      StartTxKeeps(Pop(s));
    } else {
      DismissKeeps(Pop(s));
    }
  }

  lemma EnterKeeps(s: State)
    requires Inv(s) && !s.inTransmit && s.queue != [] && s.queue[0] == ConfirmSend(s.visits)
    ensures Inv(OnEvent(Pop(s), s.queue[0]))
  {
    var q := s.queue[1..];
    assert forall i :: 0 <= i < |q| ==> q[i] == s.queue[i + 1];
    StartTxKeeps(Pop(s).(inTransmit := true));
  }

  lemma HandleKeeps(s: State)
    requires Inv(s) && s.queue != []
    ensures Inv(OnEvent(Pop(s), s.queue[0]))
  {
    var m := s.queue[0];
    if !s.inTransmit && m == ConfirmSend(s.visits) {
      EnterKeeps(s);
    } else if s.inTransmit && m.TxFinished? {
      TxFinishedKeeps(s);
    } else if s.inTransmit && Tagged(m) {
      AckKeeps(s);
    } else if s.inTransmit && (m.StatusLeft? || m.StatusOk? || (m.StatusRight? && s.retryAllowed)) {
      KeyKeeps(s);
    } else {
      PopKeeps(s);
    }
  }

  /** Posting steps. */
  lemma PostingKeeps(s: State, a: Action)
    requires Inv(s) && (a.WorkerHears? || a.Press? || a.Confirm? || a.PostUnrelated?)
    ensures Inv(Next(s, a))
  {
    match a
    case WorkerHears(ack) =>
      if s.worker {
        PostKeeps(s, if ack.Some? then AckSuccess(s.run) else AckFail(s.run));
      }
    case Press(k) =>
      if s.inTransmit && (s.mode.Result? || s.mode.Connected?) {
        PostKeeps(s, KeyMsg(s, k));
      }
    case Confirm =>
      if !s.inTransmit {
        PostKeeps(s, ConfirmSend(s.visits));
      }
    case PostUnrelated => PostKeeps(s, Unrelated);
  }

  lemma CountingKeeps(s: State, n: nat)
    requires Inv(s)
    ensures Inv(s.(dismissTicks := n))
  {}

  lemma TickKeeps(s: State)
    requires Inv(s)
    ensures Inv(OnTick(s))
  {
    if s.inTransmit && s.dismissTicks == 1 {
      DismissKeeps(s);
    } else if s.inTransmit && s.dismissTicks > 1 {
      CountingKeeps(s, s.dismissTicks - 1);
    }
  }

  lemma NextKeeps(s: State, a: Action)
    requires Inv(s)
    ensures Inv(Next(s, a))
  {
    match a
    case TxProgress =>
    case TxEnds(ok) => TxEndsKeeps(s, ok);
    case TimerFires => TimerFiresKeeps(s);
    case Handle =>
      if s.queue != [] {
        HandleKeeps(s);
      }
    case Tick => TickKeeps(s);
    case Back =>
      if s.inTransmit {
        DismissKeeps(s);
      }
    case SetAck(on) =>
    case _ => PostingKeeps(s, a);
  }

  lemma {:induction false} Reachable(ack: bool, acts: seq<Action>)
    ensures Inv(RunAll(Init(ack), acts))
  {
    if acts != [] {
      Reachable(ack, acts[..|acts| - 1]);
      NextKeeps(RunAll(Init(ack), acts[..|acts| - 1]), acts[|acts| - 1]);
    }
  }

  // ---------------------------------------------------------------- the shared text

  function LastOf(texts: seq<seq<byte>>): seq<byte> {
    if texts == [] then [] else texts[|texts| - 1]
  }

  /** The buffer holds the last text heard in this send, and whoever shows it has something to show. */
  ghost predicate TextInv(s: State) {
    s.inTransmit ==>
      && (s.worker || s.heard != [] ==> s.ackText == LastOf(s.heard))
      && (!s.tx.NoThread? ==> s.heard == [])
      && (forall i :: 0 <= i < |s.queue| && s.queue[i].AckSuccess? ==> s.heard != [])
      && (s.mode.Connected? ==> s.heard != [] && s.mode.text == LastOf(s.heard))
  }

  lemma StartTxKeepsText(s: State)
    requires forall i :: 0 <= i < |s.queue| ==> !s.queue[i].AckSuccess?
    ensures TextInv(StartTx(s))
  {}

  lemma ReportKeepsText(s: State)
    requires Inv(s) && TextInv(s) && s.inTransmit && s.queue != [] && Tagged(s.queue[0])
    ensures TextInv(OnEvent(Pop(s), s.queue[0]))
  {
    var q := s.queue[1..];
    assert forall i :: 0 <= i < |q| ==> q[i] == s.queue[i + 1];
    if s.queue[0].TxFinished? {
      TxFinishedKeeps(s);
      assert forall i :: 0 <= i < |q| ==> !q[i].AckSuccess?;
    }
  }

  lemma PopKeepsText(s: State)
    requires TextInv(s) && s.queue != []
    ensures TextInv(Pop(s))
  {
    var q := s.queue[1..];
    assert forall i :: 0 <= i < |q| ==> q[i] == s.queue[i + 1];
  }

  /** Behind the event that starts a send there is no report. */
  lemma StartsClean(s: State)
    requires Inv(s) && s.queue != []
    requires if s.inTransmit then s.queue[0].StatusRight? && s.retryAllowed else s.queue[0] == ConfirmSend(s.visits)
    ensures forall i :: 0 <= i < |Pop(s).queue| ==> !Pop(s).queue[i].AckSuccess?
  {
    var q := s.queue[1..];
    assert forall i :: 0 <= i < |q| ==> q[i] == s.queue[i + 1] && !Tagged(q[i]);
  }

  lemma HandleKeepsText(s: State)
    requires Inv(s) && TextInv(s) && s.queue != []
    ensures TextInv(OnEvent(Pop(s), s.queue[0]))
  {
    var m := s.queue[0];
    if s.inTransmit && Tagged(m) {
      ReportKeepsText(s);
    } else if s.inTransmit && m.StatusRight? && s.retryAllowed {
      StartsClean(s);
      StartTxKeepsText(Pop(s));
    } else if !s.inTransmit && m == ConfirmSend(s.visits) {
      StartsClean(s);
      StartTxKeepsText(Pop(s).(inTransmit := true));
    } else {
      PopKeepsText(s);
    }
  }

  lemma PostKeepsText(s: State, m: Msg)
    requires TextInv(s) && (m.AckSuccess? ==> s.heard != [])
    ensures TextInv(Post(s, m))
  {}

  lemma HearKeepsText(s: State, ack: Option<seq<byte>>)
    requires TextInv(s) && s.worker && s.tx.NoThread? && !s.mode.Connected?
    ensures TextInv(Hear(s, ack))
  {
    if ack.Some? {
      PostKeepsText(s.(ackText := ack.value, heard := s.heard + [ack.value]), AckSuccess(s.run));
    }
  }

  /** Steps that neither hear anything nor handle an event. */
  lemma OtherKeepsText(s: State, a: Action)
    requires TextInv(s) && !a.WorkerHears? && !a.Handle? && !a.TxEnds?
    ensures TextInv(Next(s, a))
  {
    match a
    case TimerFires =>
      if s.timer.Armed? {
        PostKeepsText(s.(timer := Fired), AckTimeout(s.run));
      }
    case Press(k) => PostKeepsText(s, KeyMsg(s, k));
    case Confirm => PostKeepsText(s, ConfirmSend(s.visits));
    case PostUnrelated => PostKeepsText(s, Unrelated);
    case _ =>
  }

  lemma NextKeepsText(s: State, a: Action)
    requires Inv(s) && TextInv(s)
    ensures TextInv(Next(s, a))
  {
    match a
    case WorkerHears(ack) =>
      if s.worker && s.inTransmit {
        HearKeepsText(s, ack);
      }
    case Handle =>
      if s.queue != [] {
        HandleKeepsText(s);
      }
    case TxEnds(ok) =>
      if s.tx.Sending? {
        PostKeepsText(s.(txOk := ok, tx := Ended), TxFinished(s.run));
      }
    case _ => OtherKeepsText(s, a);
  }

  lemma {:induction false} TextReachable(ack: bool, acts: seq<Action>)
    ensures TextInv(RunAll(Init(ack), acts))
  {
    if acts != [] {
      TextReachable(ack, acts[..|acts| - 1]);
      Reachable(ack, acts[..|acts| - 1]);
      NextKeepsText(RunAll(Init(ack), acts[..|acts| - 1]), acts[|acts| - 1]);
    }
  }

  /** What the screen shows with "Connected" is the text of the last success that the worker heard during
      this very send: the buffer it is read from is never left over from an earlier one. */
  lemma ShownTextIsOfThisSend(ack: bool, acts: seq<Action>)
    ensures var s := RunAll(Init(ack), acts);
            s.inTransmit && s.mode.Connected? ==> s.heard != [] && s.mode.text == s.heard[|s.heard| - 1]
  {
    TextReachable(ack, acts);
  }

  // ---------------------------------------------------------------- what follows

  /** Safety.  In every interleaving the transmit thread and the listener are never both live, and worker
      and timer live and die together. */
  lemma NeverBothLive(ack: bool, acts: seq<Action>)
    ensures var s := RunAll(Init(ack), acts);
            && !(s.worker && !s.tx.NoThread?)
            && (s.worker <==> !s.timer.NoTimer?)
            && (!s.inTransmit ==> !s.worker && s.tx.NoThread?)
  {
    Reachable(ack, acts);
  }

  /** Whenever a handler is about to start the listener there is no live handle to overwrite, and the
      transmit thread it joins has already posted its last event. */
  lemma ListenerStartsClean(ack: bool, acts: seq<Action>)
    ensures var s := RunAll(Init(ack), acts);
            s.inTransmit && s.queue != [] && s.queue[0].TxFinished? ==>
              !s.worker && s.timer.NoTimer? && s.tx.Ended?
  {
    Reachable(ack, acts);
  }

  /** Isolation.  No report of one send is ever handled by the scene during a later one. */
  lemma RunIsolation(ack: bool, acts: seq<Action>)
    ensures var s := RunAll(Init(ack), acts);
            s.inTransmit && s.queue != [] && Tagged(s.queue[0]) ==> s.queue[0].run == s.run
  {
    Reachable(ack, acts);
  }

  /** Never stuck.  While the scene is shown, either the transmit thread is at work, or its report is
      waiting, or the listener is up with its timer running or already reported, or a result is on the
      screen and the keys work. */
  lemma NeverStuck(ack: bool, acts: seq<Action>)
    ensures var s := RunAll(Init(ack), acts);
            s.inTransmit ==>
              || s.tx.Sending?
              || (s.tx.Ended? && TxFinished(s.run) in s.queue)
              || (s.worker && (s.timer.Armed? || AckTimeout(s.run) in s.queue))
              || s.mode.Result? || s.mode.Connected?
  {
    Reachable(ack, acts);
  }

  /** What gets a send to its end: the transmit thread ends, with the result ok, the timer fires, or the main
      thread handles the next event. */
  predicate Driving(a: Action, ok: bool) {
    a == TxEnds(ok) || a.TimerFires? || a.Handle?
  }

  /** A result is on the screen, or the scene has been left. */
  predicate Settled(s: State) {
    !s.inTransmit || s.mode.Result? || s.mode.Connected?
  }

  /** What is still ahead: the thread, its report, the timer, its report. */
  function Phase(s: State): nat {
    if s.tx.Sending? then 3 else if s.tx.Ended? then 2 else if s.timer.Armed? then 1 else 0
  }

  function Steps(s: State, acts: seq<Action>): State
    decreases |acts|
  {
    if acts == [] then s else Steps(Next(s, acts[0]), acts[1..])
  }

  /** While nothing is settled, handling an event settles it or moves on: either to a later phase or to a shorter
      queue in the same. */
  lemma HandleMovesOn(s: State)
    requires Inv(s) && !Settled(s) && s.queue != []
    ensures var t := Next(s, Handle);
            Settled(t) || Phase(t) < Phase(s) || (Phase(t) == Phase(s) && |t.queue| < |s.queue|)
  {
    if s.queue[0].TxFinished? {
      TxFinishedKeeps(s);
    }
  }

  /** And there is always something to do. */
  lemma SomethingToDo(s: State, ok: bool) returns (a: Action)
    requires Inv(s) && !Settled(s)
    ensures Driving(a, ok) && (a.Handle? ==> s.queue != [])
    ensures !a.Handle? ==> Phase(Next(s, a)) < Phase(s)
  {
    a := if s.tx.Sending? then TxEnds(ok) else if s.tx.NoThread? && s.timer.Armed? then TimerFires else Handle;
  }

  /** Progress.  From every state that can be reached, however the send turns out, the end of the thread, the
      timer and the handling of the queue alone lead to a result on the screen or out of the scene. */
  lemma {:induction false} Progress(s: State, ok: bool) returns (acts: seq<Action>)
    requires Inv(s)
    ensures Settled(Steps(s, acts)) && forall a :: a in acts ==> Driving(a, ok)
    decreases if Settled(s) then 0 else 1, Phase(s), |s.queue|
  {
    acts := [];
    if !Settled(s) {
      var a := SomethingToDo(s, ok);
      NextKeeps(s, a);
      if a.Handle? {
        HandleMovesOn(s);
      }
      var more := Progress(Next(s, a), ok);
      acts := [a] + more;
      assert acts[1..] == more;
    }
  }

  lemma ReachableProgress(ack: bool, before: seq<Action>, ok: bool) returns (acts: seq<Action>)
    ensures Settled(Steps(RunAll(Init(ack), before), acts)) && forall a :: a in acts ==> Driving(a, ok)
  {
    Reachable(ack, before);
    acts := Progress(RunAll(Init(ack), before), ok);
  }

  lemma RunMore(s: State, acts: seq<Action>, a: Action)
    ensures RunAll(s, acts + [a]) == Next(RunAll(s, acts), a)
  {
    assert (acts + [a])[..|acts|] == acts;
  }

  /** The run: one send with acknowledgements on, two of them heard before the first is handled. */
  lemma TwoAcksQueued() returns (acts: seq<Action>)
    ensures var s := RunAll(Init(true), acts);
            s.inTransmit && s.run == 1 && s.queue == [AckSuccess(1), AckFail(1)]
  {
    acts := [];
    RunMore(Init(true), acts, Confirm);
    acts := acts + [Confirm];
    RunMore(Init(true), acts, Handle);
    acts := acts + [Handle];
    assert RunAll(Init(true), acts).tx.Sending? && RunAll(Init(true), acts).queue == [];
    RunMore(Init(true), acts, TxEnds(true));
    acts := acts + [TxEnds(true)];
    RunMore(Init(true), acts, Handle);
    acts := acts + [Handle];
    assert RunAll(Init(true), acts).worker && RunAll(Init(true), acts).queue == [];
    RunMore(Init(true), acts, WorkerHears(Some([])));
    acts := acts + [WorkerHears(Some([]))];
    RunMore(Init(true), acts, WorkerHears(None));
    acts := acts + [WorkerHears(None)];
  }

  /** A screen that says "Connected" is not the last word: an acknowledgement that was already queued behind
      the successful one replaces it. */
  lemma ConnectedIsNotFinal() returns (acts: seq<Action>)
    ensures RunAll(Init(true), acts).mode.Connected?
    ensures RunAll(Init(true), acts + [Handle]).mode.Result?
  {
    var before := TwoAcksQueued();
    RunMore(Init(true), before, Handle);
    acts := before + [Handle];
    assert RunAll(Init(true), acts).queue == [AckFail(1)];
    RunMore(Init(true), acts, Handle);
  }
}
