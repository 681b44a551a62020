/** What the transmit session comes to, event by event, in every state that can be reached: which screen,
    which threads, whether a retry is on offer, and when the scene is left.  Said of the fields, without the
    handlers. */
module SessionOutcomes {
  import opened Session

  /** Some interleaving leads here. */
  ghost predicate Reached(s: State) {
    exists ack, acts :: s == RunAll(Init(ack), acts)
  }

  // ---------------------------------------------------------------- what the screen says about the send

  /** The listener is up only after a send that succeeded, with acknowledgements on.  A result without a
      countdown is a failure, and a failure is what a retry is offered for. */
  ghost predicate Told(s: State) {
    s.inTransmit ==>
      && (s.worker ==> s.txOk && s.ackEnabled)
      && (s.mode.Result? ==> (s.retryAllowed <==> s.dismissTicks == 0))
      && (s.mode.Connected? ==> !s.retryAllowed && s.dismissTicks > 0)
      && (s.mode.Transmit? || s.mode.Waiting? ==> !s.retryAllowed && s.dismissTicks == 0)
      && !s.mode.Blank?
  }

  lemma HandleKeepsTold(s: State)
    requires Inv(s) && Told(s) && s.queue != []
    ensures Told(OnEvent(Pop(s), s.queue[0]))
  {
    if s.inTransmit && s.queue[0].TxFinished? {
      TxFinishedKeeps(s);
    }
  }

  lemma NextKeepsTold(s: State, a: Action)
    requires Inv(s) && Told(s)
    ensures Told(Next(s, a))
  {
    if a.Handle? && s.queue != [] {
      HandleKeepsTold(s);
    }
  }

  lemma {:induction false} ReachedTold(ack: bool, acts: seq<Action>)
    ensures Inv(RunAll(Init(ack), acts)) && Told(RunAll(Init(ack), acts))
  {
    Reachable(ack, acts);
    if acts != [] {
      ReachedTold(ack, acts[..|acts| - 1]);
      NextKeepsTold(RunAll(Init(ack), acts[..|acts| - 1]), acts[|acts| - 1]);
    }
  }

  lemma ReachedKnown(s: State)
    requires Reached(s)
    ensures Inv(s) && Told(s)
  {
    var ack, acts :| s == RunAll(Init(ack), acts);
    ReachedTold(ack, acts);
  }

  lemma ReachedNext(s: State, a: Action)
    requires Reached(s)
    ensures Reached(Next(s, a))
  {
    var ack, acts :| s == RunAll(Init(ack), acts);
    RunMore(Init(ack), acts, a);
    assert Next(s, a) == RunAll(Init(ack), acts + [a]);
  }

  /** In the scene the listener is only ever up after a send that succeeded, with acknowledgements on. */
  lemma ListenerNeedsSuccess(s: State)
    requires Reached(s) && s.inTransmit && s.worker
    ensures s.txOk && s.ackEnabled
  {
    ReachedKnown(s);
  }

  // ---------------------------------------------------------------- the end of a send

  /** Which way a finished send goes. */
  lemma FinishedSend(s: State)
    requires Reached(s) && s.inTransmit && s.queue != [] && s.queue[0].TxFinished?
    ensures var t := Next(s, Handle);
            && t.inTransmit && t.run == s.run && t.tx.NoThread? && t.queue == s.queue[1..]
            && (t.mode.Waiting? && t.worker && t.timer.Armed? && t.ackText == [] <==> s.txOk && s.ackEnabled)
            && (t.mode.Result? && t.retryAllowed && t.dismissTicks == 0 && !t.worker <==> !s.txOk)
            && (t.mode.Result? && !t.retryAllowed && t.dismissTicks == 25 && !t.worker <==> s.txOk && !s.ackEnabled)
  {
    ReachedKnown(s);
    TxFinishedKeeps(s);
  }

  /** What the thread returned is what decides: it is recorded and reported when the thread ends ... */
  lemma ThreadReports(s: State, ok: bool)
    requires Reached(s) && s.tx.Sending?
    ensures var t := Next(s, TxEnds(ok));
            t.txOk == ok && t.tx.Ended? && t.queue == s.queue + [TxFinished(s.run)]
  {
    ReachedKnown(s);
  }

  /** ... and nothing but the start of another send changes it. */
  lemma ReportStands(s: State, a: Action)
    requires !(a.TxEnds? && s.tx.Sending?) && Next(s, a).run == s.run
    ensures Next(s, a).txOk == s.txOk
  {
    if a.Handle? && s.queue != [] {
      EventKeepsReport(Pop(s), s.queue[0]);
    }
  }

  lemma EventKeepsReport(s: State, m: Msg)
    requires OnEvent(s, m).run == s.run
    ensures OnEvent(s, m).txOk == s.txOk
  {}

  /** From the start of a send on: a thread that fails ends on the failure screen, one that succeeds on the
      listener or, without acknowledgements, on the "sent" screen. */
  lemma SendEnds(s: State, ok: bool)
    requires Reached(s) && s.inTransmit && s.tx.Sending? && s.queue == []
    ensures var t := Next(Next(s, TxEnds(ok)), Handle);
            if !ok then t.mode.Result? && t.retryAllowed && !t.worker
            else if s.ackEnabled then t.mode.Waiting? && t.worker && t.timer.Armed?
            else t.mode.Result? && !t.retryAllowed && t.dismissTicks == 25 && !t.worker
  {
    ReachedKnown(s);
    ReachedNext(s, TxEnds(ok));
    FinishedSend(Next(s, TxEnds(ok)));
  }

  // ---------------------------------------------------------------- acknowledgements

  /** A success that is handled shows "Connected" with the text heard, for 60 ticks; the listener is down. */
  lemma SuccessHandled(s: State)
    requires Reached(s) && s.inTransmit && s.queue != [] && s.queue[0].AckSuccess?
    ensures var t := Next(s, Handle);
            && t.inTransmit && t.run == s.run && !t.worker && t.timer.NoTimer? && t.tx.NoThread?
            && t.mode.Connected? && t.mode.text == s.ackText && t.dismissTicks == 60 && !t.retryAllowed
            && t.queue == s.queue[1..]
  {
    ReachedKnown(s);
  }

  /** A failure or a timeout that is handled shows a failure with a retry on offer and no countdown. */
  lemma FailureHandled(s: State)
    requires Reached(s) && s.inTransmit && s.queue != [] && (s.queue[0].AckFail? || s.queue[0].AckTimeout?)
    ensures var t := Next(s, Handle);
            && t.inTransmit && t.run == s.run && !t.worker && t.timer.NoTimer? && t.tx.NoThread?
            && t.mode.Result? && t.retryAllowed && t.dismissTicks == 0
            && t.queue == s.queue[1..]
  {
    ReachedKnown(s);
  }

  /** What the worker and the timer post: a success as a success, after its text; a failure as a failure. */
  lemma WorkerPosts(s: State, a: Action)
    requires Reached(s) && s.inTransmit && s.worker
    ensures var t := Next(s, a);
            && (a.WorkerHears? && a.ack.Some? ==> t.queue == s.queue + [AckSuccess(s.run)] && t.ackText == a.ack.value)
            && (a.WorkerHears? && a.ack.None? ==> t.queue == s.queue + [AckFail(s.run)] && t.ackText == s.ackText)
            && (a.TimerFires? && s.timer.Armed? ==> t.queue == s.queue + [AckTimeout(s.run)] && t.timer.Fired?)
  {}

  // ---------------------------------------------------------------- keys

  /** Keys count on result screens and nowhere else; there each posts its own event. */
  lemma KeysPost(s: State, k: Key)
    requires Reached(s)
    ensures var t := Next(s, Press(k));
            && (s.inTransmit && (s.mode.Result? || s.mode.Connected?) ==>
                  t.queue == s.queue + [match k case Left => StatusLeft case Right => StatusRight(s.run) case Ok => StatusOk])
            && (!(s.inTransmit && (s.mode.Result? || s.mode.Connected?)) ==> t == s)
  {}

  /** Right, when handled: where a retry is on offer the next send begins, anywhere else nothing happens. */
  lemma RightHandled(s: State)
    requires Reached(s) && s.inTransmit && s.queue != [] && s.queue[0].StatusRight?
    ensures var t := Next(s, Handle);
            && t.inTransmit && t.queue == s.queue[1..]
            && (s.retryAllowed ==>
                  t.run == s.run + 1 && t.tx.Sending? && !t.txCancel && !t.txOk && t.mode.Transmit?
                  && !t.worker && t.timer.NoTimer? && !t.retryAllowed && t.dismissTicks == 0)
            && (!s.retryAllowed ==> t == s.(queue := s.queue[1..]))
  {
    ReachedKnown(s);
  }

  /** So Right on every failure screen starts the next send. */
  lemma RightOnFailure(s: State)
    requires Reached(s) && s.inTransmit && s.mode.Result? && s.dismissTicks == 0 && s.queue == []
    ensures var t := Next(Next(s, Press(Right)), Handle);
            t.inTransmit && t.run == s.run + 1 && t.tx.Sending? && t.mode.Transmit? && t.queue == []
  {
    ReachedKnown(s);
    ReachedNext(s, Press(Right));
    RightHandled(Next(s, Press(Right)));
  }

  /** Nothing is live any more and the scene has been left. */
  predicate HasLeft(s: State, t: State) {
    && !t.inTransmit && t.visits == s.visits + 1 && t.run == s.run && t.dismissTicks == 0
    && t.tx.NoThread? && !t.worker && t.timer.NoTimer?
  }

  /** Left and Ok leave the scene when they are handled, Back at once. */
  lemma KeysLeave(s: State)
    requires Reached(s) && s.inTransmit
    ensures s.queue != [] && (s.queue[0].StatusLeft? || s.queue[0].StatusOk?) ==>
              HasLeft(s, Next(s, Handle)) && Next(s, Handle).queue == s.queue[1..]
  {}

  lemma BackLeaves(s: State)
    requires Reached(s)
    ensures if s.inTransmit then HasLeft(s, Next(s, Back)) && Next(s, Back).queue == s.queue else Next(s, Back) == s
  {}

  // ---------------------------------------------------------------- entering and waiting

  /** A confirmation opens the scene and starts a send, if it was posted since the scene was last left. */
  lemma ConfirmHandled(s: State)
    requires Reached(s) && !s.inTransmit && s.queue != []
    ensures var t := Next(s, Handle);
            && t.queue == s.queue[1..]
            && (s.queue[0] == ConfirmSend(s.visits) ==>
                  t.inTransmit && t.run == s.run + 1 && t.tx.Sending? && !t.txCancel && t.mode.Transmit?
                  && !t.worker && t.timer.NoTimer? && !t.retryAllowed && t.dismissTicks == 0)
            && (s.queue[0] != ConfirmSend(s.visits) ==> t == s.(queue := s.queue[1..]))
  {
    ReachedKnown(s);
  }

  /** Anything else is passed over in the scene. */
  lemma OthersIgnored(s: State)
    requires Reached(s) && s.inTransmit && s.queue != [] && (s.queue[0].Unrelated? || s.queue[0].ConfirmSend?)
    ensures Next(s, Handle) == s.(queue := s.queue[1..])
  {}

  /** n ticks without any event. */
  function Ticks(s: State, n: nat): State
    decreases n
  {
    if n == 0 then s else Ticks(Next(s, Tick), n - 1)
  }

  lemma OneTick(s: State)
    requires s.inTransmit && s.dismissTicks > 0
    ensures s.dismissTicks > 1 ==> Next(s, Tick) == s.(dismissTicks := s.dismissTicks - 1)
    ensures s.dismissTicks == 1 ==> HasLeft(s, Next(s, Tick))
  {}

  lemma {:induction false} TicksPass(s: State, n: nat)
    requires s.inTransmit && n < s.dismissTicks
    ensures Ticks(s, n) == s.(dismissTicks := s.dismissTicks - n)
    decreases n
  {
    if n > 0 {
      OneTick(s);
      TicksPass(Next(s, Tick), n - 1);
    }
  }

  lemma {:induction false} TicksSnoc(s: State, n: nat)
    ensures Ticks(s, n + 1) == Next(Ticks(s, n), Tick)
    decreases n
  {
    if n > 0 {
      TicksSnoc(Next(s, Tick), n - 1);
    } else {
      assert Ticks(s, 1) == Ticks(Next(s, Tick), 0);
    }
  }

  /** A screen with a countdown stays for exactly as many ticks and then leaves the scene. */
  lemma CountdownLeaves(s: State, n: nat)
    requires s.inTransmit && n + 1 == s.dismissTicks
    ensures Ticks(s, n) == s.(dismissTicks := 1) && HasLeft(s, Ticks(s, n + 1))
  {
    TicksPass(s, n);
    TicksSnoc(s, n);
    OneTick(Ticks(s, n));
  }

  /** A screen without one stays. */
  lemma {:induction false} NoCountdownStays(s: State, n: nat)
    requires s.dismissTicks == 0
    ensures Ticks(s, n) == s
    decreases n
  {
    if n > 0 {
      NoCountdownStays(s, n - 1);
    }
  }

  /** "Sent!" goes away after 25 ticks, "Connected" after 60. */
  lemma ResultsGoAway(s: State)
    requires Reached(s) && s.inTransmit && s.queue != []
    ensures s.queue[0].TxFinished? && s.txOk && !s.ackEnabled ==>
              Ticks(Next(s, Handle), 24).inTransmit && !Ticks(Next(s, Handle), 25).inTransmit
    ensures s.queue[0].AckSuccess? ==>
              Ticks(Next(s, Handle), 59).inTransmit && !Ticks(Next(s, Handle), 60).inTransmit
  {
    ReachedNext(s, Handle);
    var t := Next(s, Handle);
    if s.queue[0].TxFinished? && s.txOk && !s.ackEnabled {
      FinishedSend(s);
      CountdownLeaves(t, 24);
    } else if s.queue[0].AckSuccess? {
      SuccessHandled(s);
      CountdownLeaves(t, 59);
    }
  }
}
