/** The handheld's decoder for acknowledgements, on a tick counter that wraps at 2^32, and its agreement
    with the daemon's decoder. */
module AckDecoder {
  import opened Bytes
  import opened Crc
  import opened CrcAlgebra
  import opened Link
  import opened DaemonDecoder

  // ---------------------------------------------------------------- the clock

  const TICK_MODULUS := 0x1_0000_0000
  const TIMEOUT_TICKS := 30_000

  /** Unsigned 32-bit subtraction, then the comparison. */
  predicate TickLate(start: nat, now: nat) {
    (now - start) % TICK_MODULUS >= TIMEOUT_TICKS
  }

  // ---------------------------------------------------------------- the decoder

  /** Thirty seconds of a millisecond counter of 32 bits. */
  lemma TickLateInNumbers(start: nat, now: nat)
    ensures TickLate(start, now) <==> (now - start) % 4294967296 >= 30000
  {}

  class WfrAckDecoder {
    const payloadBuf: array<byte>
    var expectedLen: byte
    var writeCursor: byte
    var inTransmission: bool
    var startTick: nat

    ghost predicate Valid()
      reads this
    {
      && payloadBuf.Length == OUT_SIZE
      && writeCursor <= expectedLen
      && (inTransmission ==> expectedLen > 0)
      && startTick < TICK_MODULUS
    }

    ghost function View(): (link: Link<nat>)
      requires Valid()
      reads this, payloadBuf
      ensures WellFormed(link)
    {
      if inTransmission then Receiving(expectedLen, payloadBuf[..writeCursor], startTick) else Idle
    }

    constructor ()
      ensures Valid() && fresh(payloadBuf) && View() == Idle
    {
      payloadBuf := new byte[OUT_SIZE](_ => 0);
      expectedLen, writeCursor, inTransmission, startTick := 0, 0, false, 0;
    }

    /** memset to zero; also how a listener is started. */
    method Reset()
      requires Valid()
      modifies this, payloadBuf
      ensures Valid() && View() == Idle && writeCursor == 0
    {
      forall i | 0 <= i < payloadBuf.Length { payloadBuf[i] := 0; }
      expectedLen, writeCursor, inTransmission, startTick := 0, 0, false, 0;
    }

    method CheckTimeout(now: nat) returns (expired: bool)
      requires Valid() && now < TICK_MODULUS
      modifies this, payloadBuf
      ensures Valid()
      ensures expired <==> old(inTransmission && TickLate(startTick, now))
      ensures View() == if expired then Idle else old(View())
      ensures !expired ==> unchanged(this) && unchanged(payloadBuf)
    {
      if !inTransmission {
        return false;
      }
      if (now - startTick) % TICK_MODULUS >= TIMEOUT_TICKS {
        Reset();
        return true;
      }
      return false;
    }

    method OnStart(now: nat, len: byte) returns (result: int)
      requires Valid() && now < TICK_MODULUS
      modifies this, payloadBuf
      ensures Valid()
      ensures len == 0 ==> result == -1 && unchanged(this) && unchanged(payloadBuf)
      ensures len != 0 ==> result == 0 && View() == Receiving(len, [], now)
    {
      if len == 0 {
        return -1;
      }
      if inTransmission && expectedLen == len {
        writeCursor, startTick := 0, now;
        return 0;
      }
      Reset();
      expectedLen, inTransmission, startTick := len, true, now;
      return 0;
    }

    method OnData(command: byte)
      requires Valid()
      modifies this`writeCursor, payloadBuf
      ensures Valid()
      ensures View() == Accept(old(View()), 0, Frame(Address(Data, 0), command), 0).0
    {
      if !inTransmission || writeCursor >= expectedLen {
        return;
      }
      payloadBuf[writeCursor] := command;
      writeCursor := writeCursor + 1;
      assert payloadBuf[..writeCursor] == old(payloadBuf[..writeCursor]) + [command];
    }

    method OnEnd(command: byte, out: array<byte>) returns (result: int)
      requires Valid() && out != payloadBuf
      modifies this, payloadBuf, out
      ensures Valid()
      ensures var step := Accept(old(View()), 0, Frame(Address(End, 0), command), out.Length);
              View() == step.0 && Reports(step.1, result, old(out[..]), out)
    {
      if !inTransmission || writeCursor != expectedLen {
        return 0;
      }
      var computed := ComputeCrc8(payloadBuf, expectedLen);
      result := OnComplete(command == computed, out);
    }

    method OnComplete(holds: bool, out: array<byte>) returns (result: int)
      requires Valid() && out != payloadBuf && inTransmission && writeCursor == expectedLen
      modifies this, payloadBuf, out
      ensures Valid()
      ensures var step := Conclude(old(View()), holds, out.Length);
              View() == step.0 && Reports(step.1, result, old(out[..]), out)
    {
      if !holds {
        writeCursor := 0;
        return 0;
      }
      if expectedLen >= out.Length {
        Reset();
        return -1;
      }
      result := HandOver(out);
    }

    /** memcpy to the caller, terminate, and start afresh. */
    method HandOver(out: array<byte>) returns (result: nat)
      requires Valid() && out != payloadBuf && writeCursor == expectedLen < out.Length
      modifies this, payloadBuf, out
      ensures Valid() && View() == Idle
      ensures result == old(expectedLen) && out[..result] == old(payloadBuf[..writeCursor]) && out[result] == 0
    {
      forall i | 0 <= i < expectedLen { out[i] := payloadBuf[i]; }
      out[expectedLen] := 0;
      result := expectedLen;
      assert out[..result] == old(payloadBuf[..writeCursor]);
      Reset();
    }

    /** Feed one scancode: the same link, on the other clock. */
    method FeedScancode(now: nat, address: byte, command: byte, out: array<byte>) returns (result: int)
      requires Valid() && now < TICK_MODULUS && out != payloadBuf
      modifies this, payloadBuf, out
      ensures Valid()
      ensures var step := Feed(old(View()), old(TickLate(startTick, now)), now,
                               Frame(address, command), out.Length);
              View() == step.0 && Reports(step.1, result, old(out[..]), out)
    {
      var expired := CheckTimeout(now);
      if expired {
        return -1;
      }
      result := OnFrame(now, address, command, out);
    }

    method OnFrame(now: nat, address: byte, command: byte, out: array<byte>) returns (result: int)
      requires Valid() && now < TICK_MODULUS && out != payloadBuf
      modifies this, payloadBuf, out
      ensures Valid()
      ensures var step := Accept(old(View()), now, Frame(address, command), out.Length);
              View() == step.0 && Reports(step.1, result, old(out[..]), out)
    {
      if address / 16 != 0xA {
        return 0;
      }
      var frameType := address / 4 % 4;
      if frameType == 0 {
        result := OnStart(now, command);
      } else if frameType == 1 {
        assert KindOf(Frame(address, command)).Data?;
        OnData(command);
        result := 0;
      } else if frameType == 2 {
        assert KindOf(Frame(address, command)).End?;
        result := OnEnd(command, out);
      } else {
        result := 0;
      }
    }
  }

  // ---------------------------------------------------------------- the same link on two clocks

  /** A scancode at a whole millisecond since boot. */
  datatype MsEvent = MsEvent(ms: nat, frame: Frame)

  function OnDaemon(e: MsEvent): Event {
    Event(e.ms * 1_000_000, e.frame)
  }

  function DaemonTrace(tr: seq<MsEvent>): (r: seq<Event>)
    ensures |r| == |tr|
  {
    seq(|tr|, i requires 0 <= i < |tr| => OnDaemon(tr[i]))
  }

  function TickStep(link: Link<nat>, e: MsEvent): (Link<nat>, Outcome) {
    Feed(link, TickLateFor(link, e), e.ms % TICK_MODULUS, e.frame, OUT_SIZE)
  }

  predicate TickLateFor(link: Link<nat>, e: MsEvent) {
    link.Receiving? && TickLate(link.start, e.ms % TICK_MODULUS)
  }

  function TickOutcomes(link: Link<nat>, tr: seq<MsEvent>): (os: seq<Outcome>)
    ensures |os| == |tr|
    decreases |tr|
  {
    if tr == [] then [] else [TickStep(link, tr[0]).1] + TickOutcomes(TickStep(link, tr[0]).0, tr[1..])
  }

  /** The two decoders in the same state: same octets, same start, each on its own clock. */
  ghost predicate Matches(d: Link<int>, f: Link<nat>, startMs: nat) {
    match d
    case Idle => f.Idle?
    case Receiving(n, data, start) =>
      start == startMs * 1_000_000 && f == Receiving(n, data, startMs % TICK_MODULUS)
  }

  /** When the clocks agree: always, except in the 30 s after each whole turn of the tick counter. */
  lemma ClocksAgreeExactlyWhen(start: nat, now: nat)
    requires start <= now
    ensures (TickLate(start % TICK_MODULUS, now % TICK_MODULUS) <==> Late(start * 1_000_000, now * 1_000_000))
            <==> (now - start < TICK_MODULUS || (now - start) % TICK_MODULUS >= TIMEOUT_TICKS)
  {
    WrapDifference(start, now);
  }

  lemma WrapDifference(start: nat, now: nat)
    requires start <= now
    ensures (now % TICK_MODULUS - start % TICK_MODULUS) % TICK_MODULUS == (now - start) % TICK_MODULUS
  {
    var m := TICK_MODULUS;
    var a, b, c := now / m, start / m, (now - start) / m;
    var x, y, z := now % m, start % m, (now - start) % m;
    assert now == a * m + x && start == b * m + y && now - start == c * m + z;
    assert x - y == (c - a + b) * m + z;
    if x >= y {
      assert c - a + b == 0;
    } else {
      assert c - a + b == -1;
    }
  }

  /** In time order, with every silence short enough that the tick counter cannot lap an open transmission. */
  ghost predicate Paced(last: nat, tr: seq<MsEvent>) {
    && (tr != [] ==> last <= tr[0].ms <= last + TICK_MODULUS - TIMEOUT_TICKS)
    && forall i :: 0 < i < |tr| ==> tr[i - 1].ms <= tr[i].ms <= tr[i - 1].ms + TICK_MODULUS - TIMEOUT_TICKS
  }

  lemma BisimStep(d: Link<int>, f: Link<nat>, startMs: nat, last: nat, e: MsEvent) returns (startMs': nat)
    requires Matches(d, f, startMs)
    requires d.Receiving? ==> startMs <= last < startMs + TIMEOUT_TICKS
    requires last <= e.ms <= last + TICK_MODULUS - TIMEOUT_TICKS
    ensures Step(d, OnDaemon(e)).1 == TickStep(f, e).1
    ensures Matches(Step(d, OnDaemon(e)).0, TickStep(f, e).0, startMs')
    ensures Step(d, OnDaemon(e)).0.Receiving? ==> startMs' <= e.ms < startMs' + TIMEOUT_TICKS
  {
    if d.Receiving? {
      ClocksAgreeExactlyWhen(startMs, e.ms);
    }
    startMs' := if KindOf(e.frame).Start? && e.frame.command > 0 && !(d.Receiving? && Late(d.start, e.ms * 1_000_000))
                then e.ms else startMs;
  }

  /** On every paced run the two decoders report the same at every scancode. */
  lemma {:induction false} Bisimulation(d: Link<int>, f: Link<nat>, startMs: nat, last: nat, tr: seq<MsEvent>)
    requires Matches(d, f, startMs)
    requires d.Receiving? ==> startMs <= last < startMs + TIMEOUT_TICKS
    requires Paced(last, tr)
    ensures Outcomes(d, DaemonTrace(tr)) == TickOutcomes(f, tr)
    decreases |tr|
  {
    if tr != [] {
      var startMs' := BisimStep(d, f, startMs, last, tr[0]);
      assert DaemonTrace(tr)[1..] == DaemonTrace(tr[1..]);
      Bisimulation(Step(d, OnDaemon(tr[0])).0, TickStep(f, tr[0]).0, startMs', tr[0].ms, tr[1..]);
    }
  }

  /** The start of the open transmission in whole milliseconds. */
  function StartMs(d: Link<int>): nat {
    if d.Receiving? && d.start >= 0 then d.start / 1_000_000 else 0
  }

  /** The scancode does not come in the 30 s after a whole turn of the tick counter since the START. */
  predicate Fits(d: Link<int>, e: MsEvent) {
    d.Receiving? && StartMs(d) <= e.ms ==>
      e.ms - StartMs(d) < TICK_MODULUS || (e.ms - StartMs(d)) % TICK_MODULUS >= TIMEOUT_TICKS
  }

  ghost predicate FitsAll(d: Link<int>, tr: seq<MsEvent>)
    decreases |tr|
  {
    tr == [] || (Fits(d, tr[0]) && FitsAll(Step(d, OnDaemon(tr[0])).0, tr[1..]))
  }

  /** The decoders are in the same state and go on reporting the same. */
  ghost predicate InStep(d: Link<int>, f: Link<nat>, tr: seq<MsEvent>)
    decreases |tr|
  {
    && Matches(d, f, StartMs(d))
    && (tr != [] ==>
          Step(d, OnDaemon(tr[0])).1 == TickStep(f, tr[0]).1
          && InStep(Step(d, OnDaemon(tr[0])).0, TickStep(f, tr[0]).0, tr[1..]))
  }

  /** A scancode fits exactly when the two timeout tests answer alike; when they do not, it is the daemon
      that gives up. */
  lemma FitsMeansSameAnswer(d: Link<int>, f: Link<nat>, e: MsEvent)
    requires Matches(d, f, StartMs(d)) && StartMs(d) <= e.ms
    ensures Fits(d, e) <==> (TickLateFor(f, e) <==> LateFor(d, OnDaemon(e).now))
    ensures !Fits(d, e) ==> LateFor(d, OnDaemon(e).now)
  {
    if d.Receiving? {
      ClocksAgreeExactlyWhen(StartMs(d), e.ms);
    }
  }

  /** With the same answer the decoders report the same and stay in the same state. */
  lemma SameAnswerSameStep(d: Link<int>, f: Link<nat>, e: MsEvent)
    requires WellFormed(d) && Matches(d, f, StartMs(d)) && StartMs(d) <= e.ms
    requires TickLateFor(f, e) <==> LateFor(d, OnDaemon(e).now)
    ensures var d', f' := Step(d, OnDaemon(e)), TickStep(f, e);
            d'.1 == f'.1 && Matches(d'.0, f'.0, StartMs(d'.0))
  {
    assert e.ms * 1_000_000 / 1_000_000 == e.ms;
  }

  /** When only the daemon gives up, the reports differ, unless a zero-length START makes the handheld
      report a failure too; that leaves its transmission open. */
  lemma DaemonGivesUp(d: Link<int>, f: Link<nat>, e: MsEvent)
    requires WellFormed(d) && Matches(d, f, StartMs(d))
    requires LateFor(d, OnDaemon(e).now) && !TickLateFor(f, e)
    ensures Step(d, OnDaemon(e)) == (Idle, Failed)
    ensures TickStep(f, e).1 != Failed || TickStep(f, e).0 == f
  {}

  lemma StepKeepsOrder(d: Link<int>, e: MsEvent)
    requires WellFormed(d) && StartMs(d) <= e.ms
    ensures WellFormed(Step(d, OnDaemon(e)).0) && StartMs(Step(d, OnDaemon(e)).0) <= e.ms
  {}

  /** One scancode keeps two decoders in the same state together exactly when it fits. */
  lemma StepTogetherExactlyWhen(d: Link<int>, f: Link<nat>, e: MsEvent)
    requires WellFormed(d) && Matches(d, f, StartMs(d)) && StartMs(d) <= e.ms
    ensures var d', f' := Step(d, OnDaemon(e)), TickStep(f, e);
            && (d'.1 == f'.1 && Matches(d'.0, f'.0, StartMs(d'.0)) <==> Fits(d, e))
            && WellFormed(d'.0) && StartMs(d'.0) <= e.ms
  {
    FitsMeansSameAnswer(d, f, e);
    StepKeepsOrder(d, e);
    if Fits(d, e) {
      SameAnswerSameStep(d, f, e);
    } else {
      DaemonGivesUp(d, f, e);
    }
  }

  /** On a run in time order the decoders stay together exactly when every scancode fits: a condition on
      the times since the START in force alone. */
  lemma {:induction false} TogetherExactlyWhen(d: Link<int>, f: Link<nat>, tr: seq<MsEvent>)
    requires WellFormed(d) && Matches(d, f, StartMs(d)) && (tr != [] ==> StartMs(d) <= tr[0].ms)
    requires forall i :: 0 < i < |tr| ==> tr[i - 1].ms <= tr[i].ms
    ensures InStep(d, f, tr) <==> FitsAll(d, tr)
    decreases |tr|
  {
    if tr != [] {
      StepTogetherExactlyWhen(d, f, tr[0]);
      if Fits(d, tr[0]) {
        TogetherExactlyWhen(Step(d, OnDaemon(tr[0])).0, TickStep(f, tr[0]).0, tr[1..]);
      }
    }
  }

  // ---------------------------------------------------------------- by their reports alone

  ghost predicate SameReports(d: Link<int>, f: Link<nat>, tr: seq<MsEvent>) {
    Outcomes(d, DaemonTrace(tr)) == TickOutcomes(f, tr)
  }

  lemma SameReportsCons(d: Link<int>, f: Link<nat>, e: MsEvent, tr: seq<MsEvent>)
    ensures SameReports(d, f, [e] + tr) <==>
            Step(d, OnDaemon(e)).1 == TickStep(f, e).1 && SameReports(Step(d, OnDaemon(e)).0, TickStep(f, e).0, tr)
  {
    var all := [e] + tr;
    assert all[1..] == tr;
    assert DaemonTrace(all)[1..] == DaemonTrace(tr);
    var a, b := Outcomes(d, DaemonTrace(all)), TickOutcomes(f, all);
    assert a[1..] == Outcomes(Step(d, OnDaemon(e)).0, DaemonTrace(tr)) && b[1..] == TickOutcomes(TickStep(f, e).0, tr);
    assert a == [a[0]] + a[1..] && b == [b[0]] + b[1..];
  }

  /** Scancodes that complete a pass at one instant. */
  function Finish(n: nat, data: seq<byte>, ms: nat): seq<MsEvent>
    requires |data| <= n
    decreases n - |data|
  {
    if |data| == n then [MsEvent(ms, Frame(Address(End, 0), Crc8(data)))]
    else [MsEvent(ms, Frame(Address(Data, 0), 0))] + Finish(n, data + [0], ms)
  }

  /** All at the same instant. */
  ghost predicate Prompt(ms: nat, tr: seq<MsEvent>) {
    forall e :: e in tr ==> e.ms == ms
  }

  lemma {:induction false} FinishIsPrompt(n: nat, data: seq<byte>, ms: nat)
    requires |data| <= n
    ensures Prompt(ms, Finish(n, data, ms))
    decreases n - |data|
  {
    if |data| != n {
      FinishIsPrompt(n, data + [0], ms);
    }
  }

  /** A decoder that has given up and one that has not are told apart by completing the pass. */
  lemma {:induction false} FinishTells(n: nat, data: seq<byte>, start: nat, ms: nat)
    requires |data| <= n && 1 <= n <= 255 && !TickLate(start, ms % TICK_MODULUS)
    ensures !SameReports(Idle, Receiving(n, data, start), Finish(n, data, ms))
    decreases n - |data|
  {
    if |data| == n {
      var e := MsEvent(ms, Frame(Address(End, 0), Crc8(data)));
      SameReportsCons(Idle, Receiving(n, data, start), e, []);
      assert [e] + [] == [e];
    } else {
      SameReportsCons(Idle, Receiving(n, data, start), MsEvent(ms, Frame(Address(Data, 0), 0)), Finish(n, data + [0], ms));
      FinishTells(n, data + [0], start, ms);
    }
  }

  /** A scancode that does not fit shows in the reports, at once or as soon as the pass is completed. */
  lemma PartingShows(d: Link<int>, f: Link<nat>, e: MsEvent) returns (more: seq<MsEvent>)
    requires WellFormed(d) && Matches(d, f, StartMs(d)) && StartMs(d) <= e.ms && !Fits(d, e)
    ensures Prompt(e.ms, more) && !SameReports(d, f, [e] + more)
  {
    FitsMeansSameAnswer(d, f, e);
    DaemonGivesUp(d, f, e);
    more := Finish(d.expected, d.data, e.ms);
    FinishIsPrompt(d.expected, d.data, e.ms);
    SameReportsCons(d, f, e, more);
    FinishTells(f.expected, f.data, f.start, e.ms);
  }

  /** Two decoders in the same state at an instant that fits. */
  ghost predicate Abreast(d: Link<int>, f: Link<nat>, ms: nat) {
    WellFormed(d) && Matches(d, f, StartMs(d)) && StartMs(d) <= ms && Fits(d, MsEvent(ms, Frame(0, 0)))
  }

  lemma StaysAbreast(d: Link<int>, f: Link<nat>, e: MsEvent)
    requires Abreast(d, f, e.ms)
    ensures Step(d, OnDaemon(e)).1 == TickStep(f, e).1 && Abreast(Step(d, OnDaemon(e)).0, TickStep(f, e).0, e.ms)
  {
    StepTogetherExactlyWhen(d, f, e);
    FitsStays(d, e);
  }

  /** At the instant of a scancode that fits, every further one fits too. */
  lemma {:induction false} PromptAlike(d: Link<int>, f: Link<nat>, ms: nat, more: seq<MsEvent>)
    requires Abreast(d, f, ms) && Prompt(ms, more)
    ensures SameReports(d, f, more)
    decreases |more|
  {
    if more != [] {
      var e, rest := more[0], more[1..];
      assert more == [e] + rest && e.ms == ms;
      StaysAbreast(d, f, e);
      PromptAlike(Step(d, OnDaemon(e)).0, TickStep(f, e).0, ms, rest);
      SameReportsCons(d, f, e, rest);
    }
  }

  lemma FitsStays(d: Link<int>, e: MsEvent)
    requires Fits(d, e)
    ensures Fits(Step(d, OnDaemon(e)).0, MsEvent(e.ms, Frame(0, 0)))
  {
    assert e.ms * 1_000_000 / 1_000_000 == e.ms;
  }

  /** However the run is broken off, and whatever comes at that instant, the reports are the same. */
  ghost predicate AlwaysAlike(d: Link<int>, f: Link<nat>, tr: seq<MsEvent>) {
    forall i: nat, more: seq<MsEvent> :: 0 < i <= |tr| && Prompt(tr[i - 1].ms, more) ==> SameReports(d, f, tr[..i] + more)
  }

  /** By reports alone: on a run in time order the two decoders cannot be told apart, at any point of it and
      by anything that could come next, exactly when every scancode fits. */
  lemma {:induction false} AlikeExactlyWhen(d: Link<int>, f: Link<nat>, tr: seq<MsEvent>)
    requires WellFormed(d) && Matches(d, f, StartMs(d)) && (tr != [] ==> StartMs(d) <= tr[0].ms)
    requires forall i :: 0 < i < |tr| ==> tr[i - 1].ms <= tr[i].ms
    ensures AlwaysAlike(d, f, tr) <==> FitsAll(d, tr)
    decreases |tr|
  {
    if tr != [] {
      var e, rest := tr[0], tr[1..];
      StepTogetherExactlyWhen(d, f, e);
      if !Fits(d, e) {
        var more := PartingShows(d, f, e);
        assert tr[..1] + more == [e] + more;
      } else {
        var d', f' := Step(d, OnDaemon(e)).0, TickStep(f, e).0;
        AlikeExactlyWhen(d', f', rest);
        assert tr == [e] + rest;
        if AlwaysAlike(d', f', rest) {
          AlikeCons(d, f, e, rest);
        } else if AlwaysAlike(d, f, tr) {
          AlikeTail(d, f, e, rest);
        }
      }
    }
  }

  lemma AlikeTail(d: Link<int>, f: Link<nat>, e: MsEvent, rest: seq<MsEvent>)
    requires AlwaysAlike(d, f, [e] + rest)
    ensures AlwaysAlike(Step(d, OnDaemon(e)).0, TickStep(f, e).0, rest)
  {
    var tr := [e] + rest;
    forall i: nat, more: seq<MsEvent> | 0 < i <= |rest| && Prompt(rest[i - 1].ms, more)
      ensures SameReports(Step(d, OnDaemon(e)).0, TickStep(f, e).0, rest[..i] + more)
    {
      assert tr[i] == rest[i - 1] && SameReports(d, f, tr[..i + 1] + more);
      assert tr[..i + 1] + more == [e] + (rest[..i] + more);
      SameReportsCons(d, f, e, rest[..i] + more);
    }
  }

  lemma AlikeCons(d: Link<int>, f: Link<nat>, e: MsEvent, rest: seq<MsEvent>)
    requires WellFormed(d) && Matches(d, f, StartMs(d)) && StartMs(d) <= e.ms && Fits(d, e)
    requires AlwaysAlike(Step(d, OnDaemon(e)).0, TickStep(f, e).0, rest)
    ensures AlwaysAlike(d, f, [e] + rest)
  {
    var tr, d', f' := [e] + rest, Step(d, OnDaemon(e)).0, TickStep(f, e).0;
    StepTogetherExactlyWhen(d, f, e);
    FitsStays(d, e);
    forall i: nat, more: seq<MsEvent> | 0 < i <= |tr| && Prompt(tr[i - 1].ms, more)
      ensures SameReports(d, f, tr[..i] + more)
    {
      assert tr[..i] + more == [e] + (rest[..i - 1] + more);
      if i == 1 {
        assert rest[..0] + more == more;
        PromptAlike(d', f', e.ms, more);
      }
      SameReportsCons(d, f, e, rest[..i - 1] + more);
    }
  }

  /** One tick more of silence and they part: after a whole turn of the counter the daemon has given up,
      and the handheld takes the transmission to have just begun. */
  lemma PaceIsTight()
    ensures var noise := Frame(0, 0);
            var tr := [MsEvent(0, Frame(0xA0, 1)), MsEvent(29_999, noise), MsEvent(TICK_MODULUS, noise)];
            && tr[2].ms - tr[1].ms == TICK_MODULUS - TIMEOUT_TICKS + 1
            && Outcomes(Idle, DaemonTrace(tr))[2] == Failed
            && TickOutcomes(Idle, tr)[2] == More
  {
    var noise := Frame(0, 0);
    var tr := [MsEvent(0, Frame(0xA0, 1)), MsEvent(29_999, noise), MsEvent(TICK_MODULUS, noise)];
    var dt := DaemonTrace(tr);
    assert dt == [OnDaemon(tr[0]), OnDaemon(tr[1]), OnDaemon(tr[2])];
    var d1: Link<int> := Receiving(1, [], 0);
    var f1: Link<nat> := Receiving(1, [], 0);
    assert Step(Idle, dt[0]) == (d1, More) && TickStep(Idle, tr[0]) == (f1, More);
    assert Step(d1, dt[1]) == (d1, More) && TickStep(f1, tr[1]) == (f1, More);
    assert Step(d1, dt[2]) == (Idle, Failed) && TickStep(f1, tr[2]) == (f1, More);
    assert tr[1..][1..] == tr[2..] && dt[1..][1..] == dt[2..];
    assert Outcomes(d1, dt[1..]) == [More] + Outcomes(d1, dt[2..]);
    assert TickOutcomes(f1, tr[1..]) == [More] + TickOutcomes(f1, tr[2..]);
  }
}
