/** What a run of the decoder must deliver, said about the history of scancodes alone: no buffer and no
    cursor, only which START is in force and where the cursor was last reset. */
module History {
  import opened Bytes
  import opened Crc
  import opened Link
  import opened DaemonDecoder

  /** `start` is the START in force, `reset` the last cursor reset: that START, or a later END whose
      checksum failed. */
  datatype Mark = Closed | Open(start: nat, reset: nat)

  /** The DATA octets at positions lo..hi-1. */
  function DataBetween(tr: seq<Event>, lo: nat, hi: nat): seq<byte>
    requires hi <= |tr|
    decreases hi
  {
    if hi <= lo then [] else DataBetween(tr, lo, hi - 1) + DataOf(tr[hi - 1].frame)
  }

  function DataOf(f: Frame): seq<byte> {
    if KindOf(f).Data? then [f.command] else []
  }

  ghost predicate MarkOk(tr: seq<Event>, m: Mark, i: nat) {
    m.Open? ==>
      && m.start <= m.reset < i <= |tr|
      && KindOf(tr[m.start].frame).Start?
      && tr[m.start].frame.command > 0
  }

  /** The announced length and the DATA octets since the last reset. */
  function Announced(tr: seq<Event>, m: Mark): nat
    requires m.Open? && m.start < |tr|
  {
    tr[m.start].frame.command
  }

  function Since(tr: seq<Event>, m: Mark, i: nat): seq<byte>
    requires m.Open? && i <= |tr|
  {
    DataBetween(tr, m.reset + 1, i)
  }

  /** At position i: the mark says a transmission is open, and this scancode is not too late for it. */
  predicate InTime(tr: seq<Event>, m: Mark, i: nat)
    requires i < |tr| && (m.Open? ==> m.start < |tr|)
  {
    m.Open? && !Late(tr[m.start].now, tr[i].now)
  }

  /** An END that finds all announced octets. */
  predicate Completes(tr: seq<Event>, m: Mark, i: nat)
    requires i < |tr| && (m.Open? ==> m.start < |tr|)
  {
    InTime(tr, m, i) && KindOf(tr[i].frame).End? && |Since(tr, m, i)| >= Announced(tr, m)
  }

  function PayloadAt(tr: seq<Event>, m: Mark, i: nat): seq<byte>
    requires i < |tr| && (m.Open? ==> m.start < |tr|)
    requires Completes(tr, m, i)
  {
    Since(tr, m, i)[..Announced(tr, m)]
  }

  predicate ChecksumHolds(tr: seq<Event>, m: Mark, i: nat)
    requires i < |tr| && (m.Open? ==> m.start < |tr|)
    requires Completes(tr, m, i)
  {
    Crc8(PayloadAt(tr, m, i)) == tr[i].frame.command
  }

  /** How one scancode moves the mark. */
  function MarkNext(tr: seq<Event>, m: Mark, i: nat): (m': Mark)
    requires i < |tr| && MarkOk(tr, m, i)
    ensures MarkOk(tr, m', i + 1)
  {
    var f := tr[i].frame;
    if m.Open? && !InTime(tr, m, i) then Closed
    else if KindOf(f).Start? && f.command > 0 then Open(i, i)
    else if Completes(tr, m, i) then
      if ChecksumHolds(tr, m, i) then Closed else Open(m.start, i)
    else m
  }

  /** The mark just before position i, starting from a fresh decoder. */
  function MarkAt(tr: seq<Event>, i: nat): (m: Mark)
    requires i <= |tr|
    ensures MarkOk(tr, m, i)
    decreases i
  {
    if i == 0 then Closed else MarkNext(tr, MarkAt(tr, i - 1), i - 1)
  }

  /** What the mark says about the decoder's state. */
  function Reconstruct(tr: seq<Event>, m: Mark, i: nat): Link<int>
    requires i <= |tr| && MarkOk(tr, m, i)
  {
    if m.Closed? then Idle
    else Receiving(Announced(tr, m), Take(Since(tr, m, i), Announced(tr, m)), tr[m.start].now)
  }

  lemma TakeMore(s: seq<byte>, d: seq<byte>, n: nat)
    requires |d| <= 1
    ensures Take(s + d, n) == if |s| < n then Take(s, n) + d else Take(s, n)
    ensures |s| >= n ==> Take(s, n) == s[..n]
  {}

  lemma StepMovesMark(tr: seq<Event>, m: Mark, i: nat)
    requires i < |tr| && MarkOk(tr, m, i)
    ensures Step(Reconstruct(tr, m, i), tr[i]).0 == Reconstruct(tr, MarkNext(tr, m, i), i + 1)
  {
    if m.Open? {
      var d, n := Since(tr, m, i), Announced(tr, m);
      assert Since(tr, m, i + 1) == d + DataOf(tr[i].frame);
      TakeMore(d, DataOf(tr[i].frame), n);
      if InTime(tr, m, i) && KindOf(tr[i].frame).End? && |d| >= n {
        assert Take(d, n) == PayloadAt(tr, m, i);
      }
    }
  }

  lemma {:induction false} HistoryTracksState(tr: seq<Event>, i: nat)
    requires i <= |tr|
    ensures Run(Idle, tr[..i]) == Reconstruct(tr, MarkAt(tr, i), i)
  {
    if i != 0 {
      HistoryTracksState(tr, i - 1);
      OutcomeAt(Idle, tr, i - 1);
      StepMovesMark(tr, MarkAt(tr, i - 1), i - 1);
    }
  }

  lemma StepDelivers(tr: seq<Event>, m: Mark, i: nat, p: seq<byte>)
    requires i < |tr| && MarkOk(tr, m, i)
    ensures Step(Reconstruct(tr, m, i), tr[i]).1 == Delivered(p)
            <==> Completes(tr, m, i) && ChecksumHolds(tr, m, i) && p == PayloadAt(tr, m, i)
  {
    var link := Reconstruct(tr, m, i);
    if Completes(tr, m, i) {
      TakeMore(Since(tr, m, i), [], Announced(tr, m));
      assert link.data == PayloadAt(tr, m, i);
      EndConcludes(link, tr[i], ChecksumHolds(tr, m, i));
    } else {
      NothingElseDelivers(link, tr[i]);
    }
  }

  /** Whole-run refinement.  A fresh decoder delivers p at position i exactly when an END in time finds at
      least n DATA octets after the last reset, n being the length the START in force announced, the first
      n of them are p, and the END carries their checksum. */
  lemma DeliveredExactlyWhen(tr: seq<Event>, i: nat, p: seq<byte>)
    requires i < |tr|
    ensures var m := MarkAt(tr, i);
            Outcomes(Idle, tr)[i] == Delivered(p)
            <==> Completes(tr, m, i) && ChecksumHolds(tr, m, i) && p == PayloadAt(tr, m, i)
  {
    HistoryTracksState(tr, i);
    OutcomeAt(Idle, tr, i);
    StepDelivers(tr, MarkAt(tr, i), i, p);
  }

  // ---------------------------------------------------------------- what the mark means

  /** s is the START in force before i: it was accepted, and nothing since has replaced it, outlived it or
      been delivered. */
  ghost predicate InForce(tr: seq<Event>, s: nat, i: nat)
    requires s < i <= |tr|
  {
    && KindOf(tr[s].frame).Start? && Outcomes(Idle, tr)[s] == More
    && (forall k :: s < k < i ==> !Late(tr[s].now, tr[k].now))
    && (forall k :: s < k < i && KindOf(tr[k].frame).Start? ==> tr[k].frame.command == 0)
    && (forall k :: s < k < i ==> !Outcomes(Idle, tr)[k].Delivered?)
  }

  /** A START is accepted unless it has length zero or arrives on a transmission that has timed out. */
  lemma StartAccepted(tr: seq<Event>, s: nat)
    requires s < |tr| && KindOf(tr[s].frame).Start?
    ensures Outcomes(Idle, tr)[s] == More
            <==> tr[s].frame.command > 0 && (MarkAt(tr, s).Open? ==> InTime(tr, MarkAt(tr, s), s))
  {
    HistoryTracksState(tr, s);
    OutcomeAt(Idle, tr, s);
  }

  /** The START the mark names is the START in force, and there is no other. */
  lemma {:induction false} StartInForce(tr: seq<Event>, s: nat, i: nat)
    requires s < i <= |tr|
    ensures MarkAt(tr, i).Open? && MarkAt(tr, i).start == s <==> InForce(tr, s, i)
    decreases i
  {
    if s == i - 1 {
      if KindOf(tr[s].frame).Start? {
        StartAccepted(tr, s);
      }
    } else {
      StartInForce(tr, s, i - 1);
      InForceOneMore(tr, s, i - 1);
      DeliversWhen(tr, i - 1);
    }
  }

  lemma InForceOneMore(tr: seq<Event>, s: nat, i: nat)
    requires s < i < |tr|
    ensures InForce(tr, s, i + 1) <==>
            && InForce(tr, s, i)
            && !Late(tr[s].now, tr[i].now)
            && (KindOf(tr[i].frame).Start? ==> tr[i].frame.command == 0)
            && !Outcomes(Idle, tr)[i].Delivered?
  {}

  lemma DeliversWhen(tr: seq<Event>, i: nat)
    requires i < |tr|
    ensures var m := MarkAt(tr, i);
            Outcomes(Idle, tr)[i].Delivered? <==> Completes(tr, m, i) && ChecksumHolds(tr, m, i)
  {
    var m, o := MarkAt(tr, i), Outcomes(Idle, tr)[i];
    if o.Delivered? {
      DeliveredExactlyWhen(tr, i, o.payload);
    } else if Completes(tr, m, i) {
      DeliveredExactlyWhen(tr, i, PayloadAt(tr, m, i));
    }
  }

  /** If this is an END, it came before all announced octets were there. */
  ghost predicate NotYet(tr: seq<Event>, m: Mark, k: nat)
    requires k < |tr| && m.Open? && m.start < |tr|
  {
    KindOf(tr[k].frame).End? ==> |Since(tr, m, k)| < Announced(tr, m)
  }

  /** A scancode that is not the reset the mark names leaves the mark alone. */
  lemma MarkStays(tr: seq<Event>, i: nat)
    requires i < |tr| && MarkAt(tr, i + 1).Open? && MarkAt(tr, i + 1).reset != i
    ensures MarkAt(tr, i + 1) == MarkAt(tr, i) && NotYet(tr, MarkAt(tr, i), i)
  {}

  ghost predicate NoneChecked(tr: seq<Event>, m: Mark, i: nat)
    requires i <= |tr| && m.Open? && m.start < |tr|
  {
    forall k: nat :: m.reset < k < i ==> NotYet(tr, m, k)
  }

  lemma OneMoreUnchecked(tr: seq<Event>, m: Mark, i: nat)
    requires i < |tr| && m.Open? && m.start < |tr| && NoneChecked(tr, m, i) && NotYet(tr, m, i)
    ensures NoneChecked(tr, m, i + 1)
  {}

  /** The reset the mark names is the last one: every END after it came too early to be checked. */
  lemma {:induction false} ResetIsLast(tr: seq<Event>, i: nat)
    requires i <= |tr| && MarkAt(tr, i).Open?
    ensures NoneChecked(tr, MarkAt(tr, i), i)
  {
    if MarkAt(tr, i).reset != i - 1 {
      MarkStays(tr, i - 1);
      ResetIsLast(tr, i - 1);
      OneMoreUnchecked(tr, MarkAt(tr, i - 1), i - 1);
    }
  }

  /** An END of the same transmission whose checksum failed. */
  ghost predicate FailedEnd(tr: seq<Event>, m: Mark, k: nat)
    requires k < |tr| && m.Open?
  {
    var n := MarkAt(tr, k);
    n.Open? && n.start == m.start && Completes(tr, n, k) && !ChecksumHolds(tr, n, k)
  }

  lemma MarkMoves(tr: seq<Event>, i: nat)
    requires i < |tr| && MarkAt(tr, i + 1).Open? && MarkAt(tr, i + 1).reset == i != MarkAt(tr, i + 1).start
    ensures FailedEnd(tr, MarkAt(tr, i + 1), i)
  {}

  /** And it is the START itself or an END of the same transmission whose checksum failed. */
  lemma {:induction false} ResetIsFailure(tr: seq<Event>, i: nat)
    requires i <= |tr| && MarkAt(tr, i).Open? && MarkAt(tr, i).reset != MarkAt(tr, i).start
    ensures FailedEnd(tr, MarkAt(tr, i), MarkAt(tr, i).reset)
  {
    if MarkAt(tr, i).reset == i - 1 {
      MarkMoves(tr, i - 1);
    } else {
      MarkStays(tr, i - 1);
      ResetIsFailure(tr, i - 1);
    }
  }

  lemma {:induction false} ClosedForgets(tr: seq<Event>, i: nat, j: nat)
    requires i <= j <= |tr| && MarkAt(tr, i).Closed? && MarkAt(tr, j).Open?
    ensures MarkAt(tr, j).start >= i
    decreases j
  {
    if MarkAt(tr, j).start != j - 1 {
      ClosedForgets(tr, i, j - 1);
    }
  }

  /** Every delivery belongs to an earlier START, less than 30 s before it, that announced its length. */
  lemma DeliveryHasStart(tr: seq<Event>, i: nat, p: seq<byte>)
    requires i < |tr| && Outcomes(Idle, tr)[i] == Delivered(p)
    ensures MarkAt(tr, i).Open? && InForce(tr, MarkAt(tr, i).start, i)
    ensures tr[i].now - tr[MarkAt(tr, i).start].now < TIMEOUT_NANOS
    ensures |p| == Announced(tr, MarkAt(tr, i))
  {
    DeliveredExactlyWhen(tr, i, p);
    StartInForce(tr, MarkAt(tr, i).start, i);
  }

  /** No two deliveries share a START: the START of the later one comes after the earlier one. */
  lemma DeliveriesShareNoStart(tr: seq<Event>, i: nat, j: nat, p: seq<byte>, q: seq<byte>)
    requires i < j < |tr|
    requires Outcomes(Idle, tr)[i] == Delivered(p) && Outcomes(Idle, tr)[j] == Delivered(q)
    ensures MarkAt(tr, i).Open? && MarkAt(tr, j).Open?
    ensures MarkAt(tr, i).start < i < MarkAt(tr, j).start < j
  {
    DeliveryCloses(tr, i, p);
    DeliveryCloses(tr, j, q);
    ClosedForgets(tr, i + 1, j);
  }

  lemma DeliveryCloses(tr: seq<Event>, i: nat, p: seq<byte>)
    requires i < |tr| && Outcomes(Idle, tr)[i] == Delivered(p)
    ensures MarkAt(tr, i).Open? && MarkAt(tr, i).start < i && MarkAt(tr, i + 1).Closed?
  {
    DeliveredExactlyWhen(tr, i, p);
  }

  // ---------------------------------------------------------------- all deliveries of a run

  /** What is delivered at one position, by the history alone. */
  function PayloadsAt(tr: seq<Event>, i: nat): seq<seq<byte>>
    requires i < |tr|
  {
    var m := MarkAt(tr, i);
    if Completes(tr, m, i) && ChecksumHolds(tr, m, i) then [PayloadAt(tr, m, i)] else []
  }

  function PayloadsBefore(tr: seq<Event>, i: nat): seq<seq<byte>>
    requires i <= |tr|
  {
    if i == 0 then [] else PayloadsBefore(tr, i - 1) + PayloadsAt(tr, i - 1)
  }

  /** What a fresh decoder hands over during a run is what the history says, in order, and nothing else. */
  lemma {:induction false} DeliveriesByHistory(tr: seq<Event>, i: nat)
    requires i <= |tr|
    ensures Deliveries(Idle, tr[..i]) == PayloadsBefore(tr, i)
  {
    if i != 0 {
      DeliveriesByHistory(tr, i - 1);
      OneMoreDelivery(tr, i - 1);
    }
  }

  lemma OneMoreDelivery(tr: seq<Event>, i: nat)
    requires i < |tr|
    ensures Deliveries(Idle, tr[..i + 1]) == Deliveries(Idle, tr[..i]) + PayloadsAt(tr, i)
  {
    RunSnoc(Idle, tr, i);
    OutcomeAt(Idle, tr, i);
    OutcomeByHistory(tr, i);
  }

  lemma OutcomeByHistory(tr: seq<Event>, i: nat)
    requires i < |tr|
    ensures Payload(Outcomes(Idle, tr)[i]) == PayloadsAt(tr, i)
  {
    var o := Outcomes(Idle, tr)[i];
    DeliversWhen(tr, i);
    if o.Delivered? {
      DeliveredExactlyWhen(tr, i, o.payload);
    }
  }

  // ---------------------------------------------------------------- the pass number

  /** The pass number that a fresh decoder holds after i scancodes: kept, taken from a START, or back to zero
      with the transmission. */
  function PassHeld(tr: seq<Event>, i: nat): byte
    requires i <= |tr|
  {
    if i == 0 then 0
    else PassAfter(PassHeld(tr, i - 1), Run(Idle, tr[..i - 1]).Receiving?, Run(Idle, tr[..i]).Receiving?, tr[i - 1].frame)
  }

  /** It is that of the START in force, and zero when there is none. */
  lemma {:induction false} PassIsOfStart(tr: seq<Event>, i: nat)
    requires i <= |tr|
    ensures var m := MarkAt(tr, i);
            PassHeld(tr, i) == if m.Open? then PassOf(tr[m.start].frame) else 0
  {
    if i != 0 {
      PassIsOfStart(tr, i - 1);
      HistoryTracksState(tr, i - 1);
      HistoryTracksState(tr, i);
    }
  }
}
