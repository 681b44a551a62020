/** The transmit scene as it runs: handlers that change the application's fields in place.  Each is proved
    to be the step of the session it stands for, and the listener is only ever started over dead handles. */
module SessionApp {
  import opened Bytes
  import opened Session

  class WiFirApp {
    var inTransmit: bool
    var queue: seq<Msg>
    var txThread: Tx
    var txOk: bool
    var txCancel: bool
    var irWorker: bool
    var ackTimer: Timer
    var retryAllowed: bool
    var dismissTicks: nat
    var mode: Mode
    var ackEnabled: bool
    var ackResultText: seq<byte>
    // history, not in the program
    var visits: nat
    var run: nat
    var heard: seq<seq<byte>>

    function Abs(): State
      reads this
    {
      State(inTransmit, visits, run, queue, txThread, txOk, txCancel, irWorker, ackTimer,
            retryAllowed, dismissTicks, mode, ackEnabled, ackResultText, heard)
    }

    constructor (ack: bool)
      ensures Abs() == Init(ack) && Inv(Abs())
    {
      inTransmit, queue, txThread, txOk, txCancel := false, [], NoThread, false, false;
      irWorker, ackTimer, retryAllowed, dismissTicks := false, NoTimer, false, 0;
      mode, ackEnabled, visits, run := Blank, ack, 0, 0;
      ackResultText, heard := [], [];
      new;
      Reachable(ack, []);
    }

    // -------------------------------------------------------------- threads

    /** The transmit thread's last act: record the result, and report it unless cancelled. */
    method TxWorkerEnds(ok: bool)
      requires Inv(Abs())
      modifies this`txOk, this`txThread, this`queue
      ensures Abs() == Next(old(Abs()), TxEnds(ok)) && Inv(Abs())
    {
      NextKeeps(Abs(), TxEnds(ok));
      if txThread.Sending? {
        txOk, txThread := ok, Ended;
        if !txCancel {
          queue := queue + [TxFinished(run)];
        }
      }
    }

    /** The receive worker has decoded an acknowledgement; a success brings its text. */
    method IrRxCallback(ack: Option<seq<byte>>)
      requires Inv(Abs())
      modifies this`queue, this`ackResultText, this`heard
      ensures Abs() == Next(old(Abs()), WorkerHears(ack)) && Inv(Abs())
    {
      NextKeeps(Abs(), WorkerHears(ack));
      if irWorker {
        if ack.Some? {
          ackResultText, heard := ack.value, heard + [ack.value];
          queue := queue + [AckSuccess(run)];
        } else {
          queue := queue + [AckFail(run)];
        }
      }
    }

    method AckTimeoutCallback()
      requires Inv(Abs())
      modifies this`ackTimer, this`queue
      ensures Abs() == Next(old(Abs()), TimerFires) && Inv(Abs())
    {
      NextKeeps(Abs(), TimerFires);
      if ackTimer.Armed? {
        ackTimer, queue := Fired, queue + [AckTimeout(run)];
      }
    }

    /** The view's key filter: keys count only on a result screen. */
    method StatusInput(k: Key)
      requires Inv(Abs())
      modifies this`queue
      ensures Abs() == Next(old(Abs()), Press(k)) && Inv(Abs())
    {
      NextKeeps(Abs(), Press(k));
      if inTransmit && (mode.Result? || mode.Connected?) {
        queue := queue + [KeyMsg(Abs(), k)];
      }
    }

    // -------------------------------------------------------------- start and stop

    method StopAckListener()
      modifies this`ackTimer, this`irWorker
      ensures Abs() == StopListener(old(Abs()))
    {
      if !ackTimer.NoTimer? {
        ackTimer := NoTimer;
      }
      if irWorker {
        irWorker := false;
      }
    }

    /** Both handles are overwritten, so both must be dead. */
    method StartAckListener()
      requires !irWorker && ackTimer.NoTimer?
      modifies this`irWorker, this`ackTimer, this`mode, this`ackResultText
      ensures Abs() == StartListener(old(Abs()))
    {
      ackResultText := [];
      irWorker := true;
      ackTimer := Armed;
      mode := Waiting;
    }

    method StopTxThread()
      modifies this`txCancel, this`txThread
      ensures Abs() == StopTx(old(Abs()))
      ensures txThread.NoThread?
    {
      if !txThread.NoThread? {
        txCancel := true;
        txThread := NoThread;
      }
    }

    method StartTxThread()
      modifies this
      ensures Abs() == StartTx(old(Abs()))
    {
      StopBoth();
      ClearResults();
      Launch();
    }

    /** What the screen and the flags are when a send begins. */
    method ClearResults()
      modifies this`txCancel, this`txOk, this`dismissTicks, this`retryAllowed, this`mode
      ensures Abs() == old(Abs()).(txCancel := false, txOk := false, dismissTicks := 0, retryAllowed := false, mode := Transmit)
    {
      txCancel, txOk, dismissTicks, retryAllowed, mode := false, false, 0, false, Transmit;
    }

    method Launch()
      modifies this`txThread, this`run, this`heard
      ensures Abs() == old(Abs()).(tx := Sending, run := old(run) + 1, heard := [])
    {
      txThread, run, heard := Sending, run + 1, [];
    }

    method StopBoth()
      modifies this`ackTimer, this`irWorker, this`txCancel, this`txThread
      ensures Abs() == StopTx(StopListener(old(Abs())))
    {
      StopAckListener();
      StopTxThread();
    }

    // -------------------------------------------------------------- results

    method Failure()
      modifies this`retryAllowed, this`dismissTicks, this`mode
      ensures Abs() == ShowFailure(old(Abs()))
    {
      retryAllowed, dismissTicks, mode := true, 0, Result;
    }

    method ShowConnected()
      modifies this`ackTimer, this`irWorker, this`retryAllowed, this`dismissTicks, this`mode
      ensures Abs() == OnAckSuccess(old(Abs()))
    {
      StopAckListener();
      retryAllowed, mode, dismissTicks := false, Connected(ackResultText), DISMISS_CONNECTED;
    }

    method TransmitFinished()
      requires !irWorker && ackTimer.NoTimer?
      modifies this
      ensures Abs() == OnTxFinished(old(Abs()))
    {
      StopTxThread();
      if !txOk {
        Failure();
        return;
      }
      if ackEnabled {
        StartAckListener();
      } else {
        mode, dismissTicks := Result, DISMISS_SENT_TICKS;
      }
    }

    // -------------------------------------------------------------- the scene

    method OnExit()
      modifies this
      ensures Abs() == Dismiss(old(Abs()))
    {
      StopTxThread();
      StopAckListener();
      dismissTicks, inTransmit, visits := 0, false, visits + 1;
    }

    method OnCustomEvent(m: Msg)
      requires inTransmit && m.TxFinished? ==> !irWorker && ackTimer.NoTimer?
      modifies this
      ensures Abs() == OnEvent(old(Abs()), m)
    {
      if !inTransmit {
        if m == ConfirmSend(visits) {
          inTransmit := true;
          StartTxThread();
        }
        return;
      }
      match m
      case TxFinished(_) => TransmitFinished();
      case AckSuccess(_) => ShowConnected();
      case AckFail(_) => StopAckListener(); Failure();
      case AckTimeout(_) => StopAckListener(); Failure();
      case StatusLeft => OnExit();
      case StatusOk => OnExit();
      case StatusRight(_) => if retryAllowed { StartTxThread(); }
      case ConfirmSend(_) =>
      case Unrelated =>
    }

    /** The main loop takes the next event; the invariant is what makes the handlers' demands hold. */
    method HandleNext()
      requires Inv(Abs())
      modifies this
      ensures Abs() == Next(old(Abs()), Handle) && Inv(Abs())
    {
      NextKeeps(Abs(), Handle);
      if queue == [] {
        return;
      }
      var m := queue[0];
      if inTransmit && m.TxFinished? {
        TxFinishedKeeps(Abs());
      }
      queue := queue[1..];
      OnCustomEvent(m);
    }

    method TickEvent()
      requires Inv(Abs())
      modifies this
      ensures Abs() == Next(old(Abs()), Tick) && Inv(Abs())
    {
      NextKeeps(Abs(), Tick);
      if inTransmit && dismissTicks > 0 {
        CountDown();
      }
    }

    method CountDown()
      requires inTransmit && dismissTicks > 0
      modifies this
      ensures Abs() == OnTick(old(Abs()))
    {
      dismissTicks := dismissTicks - 1;
      if dismissTicks == 0 {
        OnExit();
      }
    }

    method BackEvent()
      requires Inv(Abs())
      modifies this
      ensures Abs() == Next(old(Abs()), Back) && Inv(Abs())
    {
      NextKeeps(Abs(), Back);
      if inTransmit {
        OnExit();
      }
    }
  }
}
