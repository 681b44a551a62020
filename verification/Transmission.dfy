/** What a sender emits, and what the receiving link makes of it: delivery end to end, damage, cancelling
    and timing. */
module Transmission {
  import opened Bytes
  import opened Crc
  import opened CrcAlgebra
  import opened CrcErrors
  import opened Link
  import Codec

  // ---------------------------------------------------------------- frames

  function DataFrames(payload: seq<byte>, pass: byte): (fs: seq<Frame>)
    requires pass < 4
    ensures |fs| == |payload|
  {
    seq(|payload|, i requires 0 <= i < |payload| => Frame(Address(Data, pass), payload[i]))
  }

  /** One pass: the length, the octets, and whatever checksum octet is sent. */
  function PassWith(payload: seq<byte>, crc: byte, pass: byte): (fs: seq<Frame>)
    requires |payload| <= 255 && pass < 4
    ensures |fs| == |payload| + 2
  {
    [Frame(Address(Start, pass), |payload|)] + DataFrames(payload, pass) + [Frame(Address(End, pass), crc)]
  }

  /** The frames of a pass in numbers. */
  lemma PassInNumbers(payload: seq<byte>, crc: byte, pass: byte)
    requires |payload| <= 255 && pass < 4
    ensures var fs := PassWith(payload, crc, pass);
            && |fs| == |payload| + 2
            && fs[0] == Frame(0xA0 + pass, |payload|)
            && (forall i :: 0 <= i < |payload| ==> fs[i + 1] == Frame(0xA4 + pass, payload[i]))
            && fs[|payload| + 1] == Frame(0xA8 + pass, crc)
  {
    AddressInNumbers(Start, pass, 0);
    AddressInNumbers(Data, pass, 0);
    AddressInNumbers(End, pass, 0);
  }

  /** Attempt after attempt, all of the same length, each with its number modulo four. */
  lemma {:induction false} AttemptInNumbers(payload: seq<byte>, crc: byte, attempts: nat, k: nat, at: nat, end: nat)
    requires |payload| <= 255 && k < attempts && at == k * (|payload| + 2) && end == at + |payload| + 2
    ensures end <= |Attempts(payload, crc, attempts)|
    ensures Attempts(payload, crc, attempts)[at..end] == PassWith(payload, crc, k % 4)
    decreases attempts
  {
    var front, last := Attempts(payload, crc, attempts - 1), PassWith(payload, crc, (attempts - 1) % 4);
    if k < attempts - 1 {
      AttemptInNumbers(payload, crc, attempts - 1, k, at, end);
      FrontSlice(front, last, at, end);
    } else {
      AttemptsLength(payload, crc, attempts - 1);
      LastSlice(front, last);
    }
  }

  lemma LastSlice(front: seq<Frame>, last: seq<Frame>)
    ensures (front + last)[|front|..|front| + |last|] == last
  {}

  lemma FrontSlice(front: seq<Frame>, last: seq<Frame>, i: nat, j: nat)
    requires i <= j <= |front|
    ensures (front + last)[i..j] == front[i..j]
  {}

  lemma OneTimesMore(m: nat, n: nat)
    requires m > 0
    ensures (m - 1) * n + n == m * n
  {}

  lemma {:induction false} AttemptsLength(payload: seq<byte>, crc: byte, attempts: nat)
    requires |payload| <= 255
    ensures |Attempts(payload, crc, attempts)| == attempts * (|payload| + 2)
  {
    if attempts > 0 {
      AttemptsLength(payload, crc, attempts - 1);
      OneTimesMore(attempts, |payload| + 2);
    }
  }

  function PassFrames(payload: seq<byte>, pass: byte): seq<Frame>
    requires |payload| <= 255 && pass < 4
  {
    PassWith(payload, Crc8(payload), pass)
  }

  /** All attempts of one transmission, numbered modulo four. */
  function Attempts(payload: seq<byte>, crc: byte, attempts: nat): seq<Frame>
    requires |payload| <= 255
  {
    if attempts == 0 then []
    else Attempts(payload, crc, attempts - 1) + PassWith(payload, crc, (attempts - 1) % 4)
  }

  function TransmitFrames(payload: seq<byte>, attempts: nat): seq<Frame>
    requires |payload| <= 255
  {
    Attempts(payload, Crc8(payload), attempts)
  }

  /** The frames of a run that carry the system's magic, in order. */
  function Ours(tr: seq<Event>): seq<Frame> {
    if tr == [] then []
    else (if KindOf(tr[0].frame).Foreign? then [] else [tr[0].frame]) + Ours(tr[1..])
  }

  /** Deliveries happen at END frames and nowhere else. */
  ghost predicate DeliversAtEnds(link: Link<int>, tr: seq<Event>) {
    forall k :: 0 <= k < |tr| ==> (Outcomes(link, tr)[k].Delivered? <==> KindOf(tr[k].frame).End?)
  }

  // ---------------------------------------------------------------- one pass

  lemma FirstOurs(tr: seq<Event>)
    requires tr != []
    ensures KindOf(tr[0].frame).Foreign? ==> Ours(tr) == Ours(tr[1..])
    ensures !KindOf(tr[0].frame).Foreign? ==> Ours(tr) != [] && Ours(tr)[0] == tr[0].frame && Ours(tr)[1..] == Ours(tr[1..])
  {}

  lemma OutcomesStep(link: Link<int>, tr: seq<Event>)
    requires tr != [] && DeliversAtEnds(Step(link, tr[0]).0, tr[1..])
    requires Step(link, tr[0]).1.Delivered? <==> KindOf(tr[0].frame).End?
    ensures DeliversAtEnds(link, tr)
  {
    forall k | 0 <= k < |tr|
      ensures Outcomes(link, tr)[k].Delivered? <==> KindOf(tr[k].frame).End?
    {
      assert k > 0 ==> Outcomes(link, tr)[k] == Outcomes(Step(link, tr[0]).0, tr[1..])[k - 1];
    }
  }

  /** An event that delivers nothing and is no END: what follows decides. */
  lemma Passed(link: Link<int>, tr: seq<Event>)
    requires tr != [] && !Step(link, tr[0]).1.Delivered? && !KindOf(tr[0].frame).End?
    ensures var next := Step(link, tr[0]).0;
            && Run(link, tr) == Run(next, tr[1..]) && Deliveries(link, tr) == Deliveries(next, tr[1..])
            && (DeliversAtEnds(next, tr[1..]) ==> DeliversAtEnds(link, tr))
  {
    if DeliversAtEnds(Step(link, tr[0]).0, tr[1..]) {
      OutcomesStep(link, tr);
    }
  }

  /** After the last frame only foreign scancodes remain; they change nothing. */
  lemma {:induction false} OnlyForeign(link: Link<int>, tr: seq<Event>)
    requires Ours(tr) == [] && NoTimeout(link, tr)
    ensures Run(link, tr) == link && Deliveries(link, tr) == [] && DeliversAtEnds(link, tr)
    decreases |tr|
  {
    if tr != [] {
      FirstOurs(tr);
      OnlyForeign(link, tr[1..]);
      OutcomesStep(link, tr);
    }
  }

  lemma DataFramesTail(sent: seq<byte>, i: nat, pass: byte)
    requires i < |sent| && pass < 4
    ensures DataFrames(sent[i..], pass) == [Frame(Address(Data, pass), sent[i])] + DataFrames(sent[i + 1..], pass)
  {}

  lemma AddressKinds(kind: Kind, pass: byte, command: byte)
    requires pass < 4 && (kind.Start? || kind.Data? || kind.End?)
    ensures KindOf(Frame(Address(kind, pass), command)) == kind
  {}

  /** The rest of a pass whose first octets have arrived. */
  lemma {:induction false} RestOfPass(link: Link<int>, tr: seq<Event>, sent: seq<byte>, i: nat, crc: byte, pass: byte)
    requires 1 <= |sent| <= 255 && i <= |sent| && pass < 4
    requires link.Receiving? && link.expected == |sent| && link.data == sent[..i]
    requires Ours(tr) == DataFrames(sent[i..], pass) + [Frame(Address(End, pass), crc)]
    requires NoTimeout(link, tr)
    ensures crc == Crc8(sent) ==> Run(link, tr) == Idle && Deliveries(link, tr) == [sent] && DeliversAtEnds(link, tr)
    ensures crc != Crc8(sent) ==> Run(link, tr) == link.(data := []) && Deliveries(link, tr) == []
    decreases |tr|
  {
    FirstOurs(tr);
    var next := Step(link, tr[0]).0;
    if KindOf(tr[0].frame).Foreign? {
      Passed(link, tr);
      RestOfPass(link, tr[1..], sent, i, crc, pass);
    } else if i < |sent| {
      DataFramesTail(sent, i, pass);
      AddressKinds(Data, pass, sent[i]);
      assert tr[0].frame == Frame(Address(Data, pass), sent[i]);
      assert next.data == sent[..i + 1];
      Passed(link, tr);
      RestOfPass(next, tr[1..], sent, i + 1, crc, pass);
    } else {
      assert sent[..i] == sent;
      AddressKinds(End, pass, crc);
      EndOfPass(link, tr, sent, crc);
    }
  }

  lemma EndOfPass(link: Link<int>, tr: seq<Event>, sent: seq<byte>, crc: byte)
    requires tr != [] && 1 <= |sent| <= 255 && link.Receiving? && link.expected == |sent| && link.data == sent
    requires KindOf(tr[0].frame).End? && tr[0].frame.command == crc && Ours(tr[1..]) == [] && NoTimeout(link, tr)
    ensures crc == Crc8(sent) ==> Run(link, tr) == Idle && Deliveries(link, tr) == [sent] && DeliversAtEnds(link, tr)
    ensures crc != Crc8(sent) ==> Run(link, tr) == link.(data := []) && Deliveries(link, tr) == []
  {
    EndConcludes(link, tr[0], crc == Crc8(sent));
    OnlyForeign(Step(link, tr[0]).0, tr[1..]);
    if crc == Crc8(sent) {
      OutcomesStep(link, tr);
    }
  }

  /** One whole pass, from any state: delivered at its END if the checksum holds; otherwise nothing is
      delivered, the cursor is back at zero and the transmission is still open. */
  lemma {:induction false} OnePass(link: Link<int>, tr: seq<Event>, sent: seq<byte>, crc: byte, pass: byte)
    requires 1 <= |sent| <= 255 && pass < 4
    requires Ours(tr) == PassWith(sent, crc, pass) && NoTimeout(link, tr)
    ensures crc == Crc8(sent) ==> Run(link, tr) == Idle && Deliveries(link, tr) == [sent] && DeliversAtEnds(link, tr)
    ensures crc != Crc8(sent) ==>
              && Run(link, tr).Receiving? && Run(link, tr).expected == |sent| && Run(link, tr).data == []
              && Deliveries(link, tr) == []
    decreases |tr|
  {
    FirstOurs(tr);
    if KindOf(tr[0].frame).Foreign? {
      OnePass(link, tr[1..], sent, crc, pass);
    } else {
      var next := Step(link, tr[0]).0;
      AddressKinds(Start, pass, |sent|);
      assert next == Receiving(|sent|, [], tr[0].now);
      assert sent[0..] == sent && sent[..0] == [];
      assert PassWith(sent, crc, pass)[1..] == DataFrames(sent, pass) + [Frame(Address(End, pass), crc)];
      RestOfPass(next, tr[1..], sent, 0, crc, pass);
    }
    if crc == Crc8(sent) {
      OutcomesStep(link, tr);
    }
  }

  // ---------------------------------------------------------------- many passes

  lemma {:induction false} SplitOurs(tr: seq<Event>, a: seq<Frame>, b: seq<Frame>) returns (i: nat)
    requires Ours(tr) == a + b
    ensures i <= |tr| && Ours(tr[..i]) == a && Ours(tr[i..]) == b
    decreases |tr|
  {
    if a == [] {
      i := 0;
      assert tr[0..] == tr;
    } else {
      FirstOurs(tr);
      var rest := if KindOf(tr[0].frame).Foreign? then a else a[1..];
      assert Ours(tr[1..]) == rest + b;
      var j := SplitOurs(tr[1..], rest, b);
      i := j + 1;
      assert tr[i..] == tr[1..][j..];
      assert tr[..i][1..] == tr[1..][..j];
      FirstOurs(tr[..i]);
    }
  }

  lemma {:induction false} NoTimeoutSplit(link: Link<int>, a: seq<Event>, b: seq<Event>)
    requires NoTimeout(link, a + b)
    ensures NoTimeout(link, a) && NoTimeout(Run(link, a), b)
    decreases |a|
  {
    if a == [] {
      assert a + b == b;
    } else {
      assert (a + b)[1..] == a[1..] + b;
      NoTimeoutSplit(Step(link, a[0]).0, a[1..], b);
    }
  }

  lemma DeliversAtEndsConcat(link: Link<int>, a: seq<Event>, b: seq<Event>)
    requires DeliversAtEnds(link, a) && DeliversAtEnds(Run(link, a), b)
    ensures DeliversAtEnds(link, a + b)
  {
    var oa: seq<Outcome>, ob: seq<Outcome> := Outcomes(link, a), Outcomes(Run(link, a), b);
    OutcomesConcat(link, a, b);
    forall k | 0 <= k < |a + b|
      ensures (oa + ob)[k].Delivered? <==> KindOf((a + b)[k].frame).End?
    {
      if k < |a| {
        assert (oa + ob)[k] == oa[k] && (a + b)[k] == a[k];
      } else {
        assert (oa + ob)[k] == ob[k - |a|] && (a + b)[k] == b[k - |a|];
      }
    }
  }

  /** Every pass is delivered exactly once, at its END, whatever foreign scancodes come between. */
  lemma {:induction false} AllPasses(link: Link<int>, tr: seq<Event>, payload: seq<byte>, crc: byte, attempts: nat)
    requires 1 <= |payload| <= 255 && crc == Crc8(payload)
    requires Ours(tr) == Attempts(payload, crc, attempts) && NoTimeout(link, tr)
    ensures Deliveries(link, tr) == Repeat(payload, attempts)
    ensures DeliversAtEnds(link, tr)
    ensures attempts > 0 ==> Run(link, tr) == Idle
    decreases attempts
  {
    if attempts == 0 {
      OnlyForeign(link, tr);
    } else {
      var pass: byte := (attempts - 1) % 4;
      var a, b := SplitRun(link, tr, Attempts(payload, crc, attempts - 1), PassWith(payload, crc, pass));
      AllPasses(link, a, payload, crc, attempts - 1);
      LastPass(link, a, b, payload, crc, pass);
      assert Repeat(payload, attempts) == Repeat(payload, attempts - 1) + [payload];
    }
  }

  lemma SplitRun(link: Link<int>, tr: seq<Event>, fs: seq<Frame>, gs: seq<Frame>) returns (a: seq<Event>, b: seq<Event>)
    requires Ours(tr) == fs + gs && NoTimeout(link, tr)
    ensures tr == a + b && Ours(a) == fs && Ours(b) == gs
    ensures NoTimeout(link, a) && NoTimeout(Run(link, a), b)
  {
    var i := SplitOurs(tr, fs, gs);
    a, b := tr[..i], tr[i..];
    assert tr == a + b;
    NoTimeoutSplit(link, a, b);
  }

  lemma LastPass(link: Link<int>, a: seq<Event>, b: seq<Event>, payload: seq<byte>, crc: byte, pass: byte)
    requires 1 <= |payload| <= 255 && pass < 4 && crc == Crc8(payload)
    requires Ours(b) == PassWith(payload, crc, pass) && NoTimeout(Run(link, a), b) && DeliversAtEnds(link, a)
    ensures Deliveries(link, a + b) == Deliveries(link, a) + [payload]
    ensures DeliversAtEnds(link, a + b) && Run(link, a + b) == Idle
  {
    OnePass(Run(link, a), b, payload, crc, pass);
    RunConcat(link, a, b);
    DeliversAtEndsConcat(link, a, b);
  }

  /** End to end: valid credentials, sent in any number of passes to a link in any state, with foreign
      scancodes in between and no timeout on the way, are handed over once per pass, at its END, and what
      is handed over parses to the credentials that were sent. */
  lemma EndToEnd(c: Codec.Creds, link: Link<int>, tr: seq<Event>, attempts: nat)
    requires Codec.ValidCreds(c)
    requires Ours(tr) == (Codec.BuildSize(c); TransmitFrames(Codec.Build(c), attempts))
    requires NoTimeout(link, tr)
    ensures Deliveries(link, tr) == Repeat(Codec.Build(c), attempts) && DeliversAtEnds(link, tr)
    ensures forall p :: p in Deliveries(link, tr) ==> Codec.Parse(p) == Some(c)
  {
    Codec.BuildSize(c);
    AllPasses(link, tr, Codec.Build(c), Crc8(Codec.Build(c)), attempts);
    Codec.RoundTrip(c);
  }

  /** The plainest run: the frames and nothing else, all at once. */
  function AtOnce(fs: seq<Frame>, now: int): (tr: seq<Event>)
    ensures |tr| == |fs|
  {
    seq(|fs|, i requires 0 <= i < |fs| => Event(now, fs[i]))
  }

  lemma {:induction false} OursAtOnce(fs: seq<Frame>, now: int)
    requires forall f :: f in fs ==> !KindOf(f).Foreign?
    ensures Ours(AtOnce(fs, now)) == fs
    decreases |fs|
  {
    if fs != [] {
      assert AtOnce(fs, now)[1..] == AtOnce(fs[1..], now);
      OursAtOnce(fs[1..], now);
    }
  }

  lemma PassNotForeign(payload: seq<byte>, crc: byte, pass: byte)
    requires |payload| <= 255 && pass < 4
    ensures forall f :: f in PassWith(payload, crc, pass) ==> !KindOf(f).Foreign?
  {
    AddressKinds(Start, pass, |payload|);
    AddressKinds(End, pass, crc);
    forall i | 0 <= i < |payload|
      ensures !KindOf(DataFrames(payload, pass)[i]).Foreign?
    {
      AddressKinds(Data, pass, payload[i]);
    }
  }

  lemma {:induction false} AttemptsNotForeign(payload: seq<byte>, crc: byte, attempts: nat)
    requires |payload| <= 255
    ensures forall f :: f in Attempts(payload, crc, attempts) ==> !KindOf(f).Foreign?
    decreases attempts
  {
    if attempts > 0 {
      AttemptsNotForeign(payload, crc, attempts - 1);
      PassNotForeign(payload, crc, (attempts - 1) % 4);
    }
  }

  /** So every valid credentials do get through, on a fresh link, any number of times. */
  lemma CleanRunDelivers(c: Codec.Creds, attempts: nat, now: int)
    requires Codec.ValidCreds(c)
    ensures |Codec.Build(c)| <= 255
    ensures Deliveries(Idle, AtOnce(TransmitFrames(Codec.Build(c), attempts), now)) == Repeat(Codec.Build(c), attempts)
  {
    Codec.BuildSize(c);
    var payload, crc := Codec.Build(c), Crc8(Codec.Build(c));
    var tr := AtOnce(Attempts(payload, crc, attempts), now);
    AttemptsNotForeign(payload, crc, attempts);
    OursAtOnce(Attempts(payload, crc, attempts), now);
    ShortSpanNoTimeout(Idle, tr, now);
    AllPasses(Idle, tr, payload, crc, attempts);
  }

  // ---------------------------------------------------------------- damage

  /** A pass hit by a detectable error delivers nothing, leaves the transmission open with its cursor at
      zero, and the next undamaged pass is delivered. */
  lemma DamageThenRecovery(link: Link<int>, bad: seq<Event>, good: seq<Event>, payload: seq<byte>,
                           err: seq<byte>, received: seq<byte>, crc: byte, pass: byte, next: byte)
    requires 1 <= |payload| <= 255 && pass < 4 && next < 4
    requires |err| == |payload| + 1 && Detectable(err)
    requires received + [crc] == XorBytes(payload + [Crc8(payload)], err)
    requires Ours(bad) == PassWith(received, crc, pass)
    requires Ours(good) == PassFrames(payload, next)
    requires NoTimeout(link, bad + good)
    ensures Deliveries(link, bad) == []
    ensures Run(link, bad).Receiving? && Run(link, bad).expected == |payload| && Run(link, bad).data == []
    ensures Deliveries(link, bad + good) == [payload]
  {
    ErrorDetected(payload, err, received, crc);
    NoTimeoutSplit(link, bad, good);
    assert |received + [crc]| == |payload| + 1;
    OnePass(link, bad, received, crc, pass);
    OnePass(Run(link, bad), good, payload, Crc8(payload), next);
    RunConcat(link, bad, good);
  }

  // ---------------------------------------------------------------- cancelling

  /** Nothing is delivered without an END. */
  lemma {:induction false} NoEndNoDelivery(link: Link<int>, tr: seq<Event>)
    requires forall f :: f in Ours(tr) ==> !KindOf(f).End?
    ensures Deliveries(link, tr) == []
    decreases |tr|
  {
    if tr != [] {
      FirstOurs(tr);
      forall f | f in Ours(tr[1..])
        ensures !KindOf(f).End?
      {
        assert f in Ours(tr);
      }
      assert !KindOf(tr[0].frame).End?;
      NoEndNoDelivery(Step(link, tr[0]).0, tr[1..]);
    }
  }

  /** A pass cut short before its END delivers nothing, even with timeouts on the way. */
  lemma CutShort(link: Link<int>, tr: seq<Event>, payload: seq<byte>, pass: byte, n: nat)
    requires |payload| <= 255 && pass < 4 && n <= |payload| + 1
    requires Ours(tr) == PassFrames(payload, pass)[..n]
    ensures Deliveries(link, tr) == []
  {
    var fs := PassFrames(payload, pass);
    forall k | 0 <= k < |payload| + 1
      ensures !KindOf(fs[k]).End?
    {
      if k == 0 {
        AddressKinds(Start, pass, |payload|);
      } else {
        AddressKinds(Data, pass, payload[k - 1]);
        assert fs[k] == DataFrames(payload, pass)[k - 1];
      }
    }
    NoEndNoDelivery(link, tr);
  }

  // ---------------------------------------------------------------- timing

  lemma {:induction false} ShortSpanNoTimeout(link: Link<int>, tr: seq<Event>, origin: int)
    requires forall k :: 0 <= k < |tr| ==> origin <= tr[k].now < origin + TIMEOUT_NANOS
    requires link.Receiving? ==> origin <= link.start
    ensures NoTimeout(link, tr)
    decreases |tr|
  {
    if tr != [] {
      ShortSpanNoTimeout(Step(link, tr[0]).0, tr[1..], origin);
    }
  }

  const STEADY_GAP := 136_000_000

  /** The arrival times of the system's own frames. */
  function OurTimes(tr: seq<Event>): (ts: seq<int>)
    ensures |ts| == |Ours(tr)|
  {
    if tr == [] then []
    else (if KindOf(tr[0].frame).Foreign? then [] else [tr[0].now]) + OurTimes(tr[1..])
  }

  ghost predicate Steady(ts: seq<int>) {
    forall k :: 0 < k < |ts| ==> ts[k] - ts[k - 1] <= STEADY_GAP
  }

  lemma {:induction false} SteadySpan(ts: seq<int>, k: nat)
    requires Steady(ts) && k < |ts|
    ensures ts[k] - ts[0] <= k * STEADY_GAP
  {
    if k != 0 {
      SteadySpan(ts, k - 1);
    }
  }

  /** The last event of a run that ends in one of our frames arrives with the last of our frames. */
  lemma {:induction false} LastOurTime(tr: seq<Event>)
    requires tr != [] && !KindOf(tr[|tr| - 1].frame).Foreign?
    ensures OurTimes(tr) != [] && OurTimes(tr)[|OurTimes(tr)| - 1] == tr[|tr| - 1].now
    decreases |tr|
  {
    if |tr| > 1 {
      LastOurTime(tr[1..]);
    }
  }

  /** A run that starts and ends in one of our frames, monotone in time, with at most 221 frames of ours no
      more than 136 ms apart, spans less than the timeout. */
  lemma SteadyRunIsShort(tr: seq<Event>, k: nat)
    requires k < |tr| && |Ours(tr)| <= 221 && Steady(OurTimes(tr))
    requires !KindOf(tr[0].frame).Foreign? && !KindOf(tr[|tr| - 1].frame).Foreign?
    requires forall i, j :: 0 <= i <= j < |tr| ==> tr[i].now <= tr[j].now
    ensures tr[0].now <= tr[k].now < tr[0].now + TIMEOUT_NANOS
  {
    var n := |OurTimes(tr)|;
    LastOurTime(tr);
    SteadySpan(OurTimes(tr), n - 1);
    assert tr[k].now <= tr[|tr| - 1].now;
  }

  /** A sender that keeps its gaps to 136 ms never times out, even with the longest credentials: the pass
      is delivered from any state in which its START is not itself too late. */
  lemma SteadyPassDelivers(c: Codec.Creds, link: Link<int>, tr: seq<Event>, pass: byte)
    requires Codec.ValidCreds(c) && pass < 4
    requires Ours(tr) == (Codec.BuildSize(c); PassFrames(Codec.Build(c), pass))
    requires !KindOf(tr[0].frame).Foreign? && !KindOf(tr[|tr| - 1].frame).Foreign?
    requires forall i, j :: 0 <= i <= j < |tr| ==> tr[i].now <= tr[j].now
    requires Steady(OurTimes(tr)) && !LateFor(link, tr[0].now)
    ensures NoTimeout(link, tr) && Deliveries(link, tr) == [Codec.Build(c)]
  {
    Codec.BuildSize(c);
    forall k | 0 <= k < |tr[1..]|
      ensures tr[0].now <= tr[1..][k].now < tr[0].now + TIMEOUT_NANOS
    {
      SteadyRunIsShort(tr, k + 1);
    }
    StartRestarts(link, tr, Codec.Build(c), pass);
    ShortSpanNoTimeout(Step(link, tr[0]).0, tr[1..], tr[0].now);
    OnePass(link, tr, Codec.Build(c), Crc8(Codec.Build(c)), pass);
  }

  lemma StartRestarts(link: Link<int>, tr: seq<Event>, payload: seq<byte>, pass: byte)
    requires 1 <= |payload| <= 255 && pass < 4 && Ours(tr) == PassFrames(payload, pass)
    requires !KindOf(tr[0].frame).Foreign? && !LateFor(link, tr[0].now)
    ensures Step(link, tr[0]).0 == Receiving(|payload|, [], tr[0].now)
  {
    FirstOurs(tr);
    AddressKinds(Start, pass, |payload|);
  }
}
