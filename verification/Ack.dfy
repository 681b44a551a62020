/** Acknowledgements: what the daemon sends back, and what the handheld makes of it. */
module Ack {
  import opened Bytes
  import opened Crc
  import opened CrcAlgebra
  import opened Link
  import opened Transmission
  import opened AckDecoder
  import Codec

  const OK_PREFIX: seq<byte> := Ascii("OK:")
  const FAIL: seq<byte> := Ascii("FAIL")

  // ---------------------------------------------------------------- the daemon's side

  /** The payload; a success without an address text goes out as a failure. */
  function AckPayload(success: bool, ip: Option<seq<byte>>): seq<byte> {
    if success && ip.Some? then OK_PREFIX + ip.value else FAIL
  }

  /** The transmit device: the scancodes written, and which writes it takes, the n-th since it was opened
      being taken or not. */
  class LircTx {
    const takes: nat -> bool
    var sent: seq<Frame>
    var writes: nat

    method SendRc6(address: byte, command: byte) returns (ok: bool)
      modifies this
      ensures ok == takes(old(writes)) && writes == old(writes) + 1
      ensures sent == if ok then old(sent) + [Frame(address, command)] else old(sent)
    {
      ok := takes(writes);
      writes := writes + 1;
      if ok {
        sent := sent + [Frame(address, command)];
      }
    }
  }

  /** The first n frames of a pass went out, and it was a failed write that stopped it if it was stopped. */
  ghost predicate WentOut(tx: LircTx, before: seq<Frame>, first: nat, fs: seq<Frame>, n: nat)
    reads tx
  {
    && n <= |fs| && tx.sent == before + fs[..n]
    && (forall k :: first <= k < first + n ==> tx.takes(k))
    && (n < |fs| ==> !tx.takes(first + n))
  }

  /** Frames go out in order until one write fails; success means all of them did. */
  method SendFrames(tx: LircTx, payload: seq<byte>, crc: byte) returns (ok: bool, ghost n: nat)
    requires |payload| <= 255
    modifies tx
    ensures WentOut(tx, old(tx.sent), old(tx.writes), PassWith(payload, crc, 0), n)
    ensures ok <==> n == |payload| + 2
  {
    ghost var fs, before, w := PassWith(payload, crc, 0), tx.sent, tx.writes;
    ok := tx.SendRc6(Address(Start, 0), |payload|);
    if !ok {
      return false, 0;
    }
    for i := 0 to |payload|
      invariant tx.writes == w + i + 1
      invariant forall k :: w <= k < w + i + 1 ==> tx.takes(k)
      invariant tx.sent == before + fs[..i + 1]
    {
      ok := tx.SendRc6(Address(Data, 0), payload[i]);
      if !ok {
        return false, i + 1;
      }
      OneMoreFrame(payload, crc, i);
    }
    ok := tx.SendRc6(Address(End, 0), crc);
    n := if ok then |payload| + 2 else |payload| + 1;
    OneMoreFrame(payload, crc, |payload|);
  }

  lemma OneMoreFrame(payload: seq<byte>, crc: byte, i: nat)
    requires i <= |payload| <= 255
    ensures var fs := PassWith(payload, crc, 0);
            fs[..i + 2] == fs[..i + 1] + [if i < |payload| then Frame(Address(Data, 0), payload[i]) else Frame(Address(End, 0), crc)]
  {}

  /** The checksum of a payload in its 256-octet buffer. */
  method Checksum(payload: seq<byte>) returns (crc: byte)
    requires |payload| <= 255
    ensures crc == Crc8(payload)
  {
    var buffer := new byte[256](i => if 0 <= i < |payload| then payload[i] else 0);
    assert buffer[..|payload|] == payload;
    crc := ComputeCrc8(buffer, |payload|);
  }

  /** An acknowledgement goes out frame by frame until a write fails; nothing goes out without a device or
      when the text is too long. */
  method SendAck(tx: LircTx, open: bool, success: bool, ip: Option<seq<byte>>) returns (ok: bool, ghost n: nat)
    modifies tx
    ensures var payload := AckPayload(success, ip);
            if !open || |payload| > 255 then !ok && n == 0 && tx.sent == old(tx.sent)
            else
              && WentOut(tx, old(tx.sent), old(tx.writes), PassFrames(payload, 0), n)
              && (ok <==> n == |payload| + 2)
  {
    if !open {
      return false, 0;
    }
    var payload := AckPayload(success, ip);
    if |payload| == 0 || |payload| > 255 {
      return false, 0;
    }
    var crc := Checksum(payload);
    ok, n := SendFrames(tx, payload, crc);
  }

  // ---------------------------------------------------------------- the handheld's side

  datatype AckEvent = AckSuccess(text: seq<byte>) | AckFail

  const RESULT_TEXT_MAX := 63

  /** A payload that begins with the success prefix is a success; its text is cut to the result buffer. */
  function Classify(payload: seq<byte>): AckEvent {
    var s := CStr(payload);
    if OK_PREFIX <= s then AckSuccess(Take(s[3..], RESULT_TEXT_MAX)) else AckFail
  }

  datatype Protocol = RC6 | NEC | OtherProtocol

  datatype IrSignal = Raw | Decoded(protocol: Protocol, address: nat, command: nat)

  /** The receive callback: undecoded signals and other protocols are dropped, the low octets go to the
      decoder, and a complete payload becomes one event. */
  method OnSignal(decoder: WfrAckDecoder, signal: IrSignal, now: nat) returns (event: Option<AckEvent>)
    requires decoder.Valid() && now < TICK_MODULUS
    modifies decoder, decoder.payloadBuf
    ensures decoder.Valid()
    ensures signal.Raw? || signal.protocol.OtherProtocol? ==>
              event == None && decoder.View() == old(decoder.View())
    ensures signal.Decoded? && !signal.protocol.OtherProtocol? ==>
              var link := old(decoder.View());
              var step := Feed(link, link.Receiving? && TickLate(link.start, now), now,
                               Frame(signal.address % 256, signal.command % 256), OUT_SIZE);
              && decoder.View() == step.0
              && event == if step.1.Delivered? then Some(Classify(step.1.payload)) else None
  {
    if signal.Raw? || signal.protocol.OtherProtocol? {
      return None;
    }
    var payload := new byte[OUT_SIZE](_ => 0);
    var result := decoder.FeedScancode(now, signal.address % 256, signal.command % 256, payload);
    event := if result > 0 then Some(Classify(payload[..result])) else None;
  }

  /** The two payloads in text. */
  lemma PayloadsInText(success: bool, ip: Option<seq<byte>>)
    ensures AckPayload(success, ip) == if success && ip.Some? then Ascii("OK:") + ip.value else Ascii("FAIL")
  {}

  /** What any payload is taken for, in text: a success exactly when it begins with OK:, with up to 63 octets of
      what follows as its text. */
  lemma ClassifyInText(payload: seq<byte>)
    ensures var s := CStr(payload);
            Classify(payload) == if Ascii("OK:") <= s then AckSuccess(Take(s[3..], 63)) else AckFail
  {}

  // ---------------------------------------------------------------- the round trip

  /** Success is reported exactly when there was a success to report and an address to report it with. */
  lemma ClassifyAck(success: bool, ip: Option<seq<byte>>)
    requires ip.Some? ==> IsCString(ip.value)
    ensures Classify(AckPayload(success, ip)) ==
            if success && ip.Some? then AckSuccess(Take(ip.value, RESULT_TEXT_MAX)) else AckFail
  {
    var p := AckPayload(success, ip);
    CStrOfCString(p);
    if success && ip.Some? {
      assert p[3..] == ip.value;
    } else {
      assert p[0] != OK_PREFIX[0];
    }
  }

  /** The events a fresh listener raises on a run. */
  function Events(os: seq<Outcome>): seq<AckEvent> {
    if os == [] then []
    else (if os[0].Delivered? then [Classify(os[0].payload)] else []) + Events(os[1..])
  }

  lemma {:induction false} EventsOfDeliveries(link: Link<int>, tr: seq<Event>)
    ensures |Events(Outcomes(link, tr))| == |Deliveries(link, tr)|
    ensures forall k :: 0 <= k < |Deliveries(link, tr)| ==>
              Events(Outcomes(link, tr))[k] == Classify(Deliveries(link, tr)[k])
    decreases |tr|
  {
    if tr != [] {
      var rest, o := Step(link, tr[0]).0, Step(link, tr[0]).1;
      EventsOfDeliveries(rest, tr[1..]);
      assert Outcomes(link, tr)[1..] == Outcomes(rest, tr[1..]);
    }
  }

  /** In time order, and all within 30 s. */
  ghost predicate Brief(tr: seq<MsEvent>) {
    forall i, j :: 0 <= i <= j < |tr| ==> tr[i].ms <= tr[j].ms < tr[i].ms + TIMEOUT_TICKS
  }

  lemma BriefRun(tr: seq<MsEvent>)
    requires tr != [] && Brief(tr)
    ensures NoTimeout(Idle, DaemonTrace(tr)) && TickOutcomes(Idle, tr) == Outcomes(Idle, DaemonTrace(tr))
  {
    ShortSpanNoTimeout(Idle, DaemonTrace(tr), tr[0].ms * 1_000_000);
    Bisimulation(Idle, Idle, 0, tr[0].ms, tr);
  }

  /** One pass of any payload raises exactly the event its payload stands for. */
  lemma PassRaises(payload: seq<byte>, crc: byte, tr: seq<MsEvent>)
    requires 1 <= |payload| <= 255 && crc == Crc8(payload)
    requires Ours(DaemonTrace(tr)) == PassWith(payload, crc, 0) && Brief(tr)
    ensures Events(TickOutcomes(Idle, tr)) == [Classify(payload)]
  {
    var dt := DaemonTrace(tr);
    assert tr != [];
    BriefRun(tr);
    OnePass(Idle, dt, payload, crc, 0);
    EventsOfDeliveries(Idle, dt);
    assert Deliveries(Idle, dt)[0] == payload;
  }

  /** The daemon's frames, among any foreign scancodes, raise exactly one event on a fresh listener whose
      run stays under 30 s: success with the same text, or failure. */
  lemma AckRoundTrip(success: bool, ip: Option<seq<byte>>, tr: seq<MsEvent>)
    requires ip.Some? ==> IsCString(ip.value)
    requires |AckPayload(success, ip)| <= 255
    requires Ours(DaemonTrace(tr)) == PassFrames(AckPayload(success, ip), 0) && Brief(tr)
    ensures Events(TickOutcomes(Idle, tr)) ==
            [if success && ip.Some? then AckSuccess(Take(ip.value, RESULT_TEXT_MAX)) else AckFail]
  {
    PassRaises(AckPayload(success, ip), Crc8(AckPayload(success, ip)), tr);
    ClassifyAck(success, ip);
  }

  // ---------------------------------------------------------------- from device to event

  /** A signal as the receive worker gets it, at a whole millisecond since boot. */
  datatype Heard = Heard(ms: nat, signal: IrSignal)

  /** The scancodes that reach the decoder. */
  function TraceOf(hs: seq<Heard>): seq<MsEvent> {
    if hs == [] then [] else TraceOf(hs[..|hs| - 1]) + EventOf(hs[|hs| - 1])
  }

  function EventOf(h: Heard): seq<MsEvent> {
    if h.signal.Raw? || h.signal.protocol.OtherProtocol? then []
    else [MsEvent(h.ms, Frame(h.signal.address % 256, h.signal.command % 256))]
  }

  function TickRun(link: Link<nat>, tr: seq<MsEvent>): Link<nat>
    decreases |tr|
  {
    if tr == [] then link else TickRun(TickStep(link, tr[0]).0, tr[1..])
  }

  lemma {:induction false} TickSnoc(link: Link<nat>, tr: seq<MsEvent>, e: MsEvent)
    ensures TickRun(link, tr + [e]) == TickStep(TickRun(link, tr), e).0
    ensures TickOutcomes(link, tr + [e]) == TickOutcomes(link, tr) + [TickStep(TickRun(link, tr), e).1]
    decreases |tr|
  {
    if tr == [] {
      assert tr + [e] == [e] && [e][1..] == [];
      assert TickOutcomes(TickStep(link, e).0, []) == [];
    } else {
      assert (tr + [e])[0] == tr[0] && (tr + [e])[1..] == tr[1..] + [e];
      TickSnoc(TickStep(link, tr[0]).0, tr[1..], e);
    }
  }

  lemma {:induction false} EventsSnoc(os: seq<Outcome>, o: Outcome)
    ensures Events(os + [o]) == Events(os) + if o.Delivered? then [Classify(o.payload)] else []
    decreases |os|
  {
    if os == [] {
      assert os + [o] == [o] && [o][1..] == [];
    } else {
      assert (os + [o])[0] == os[0] && (os + [o])[1..] == os[1..] + [o];
      EventsSnoc(os[1..], o);
    }
  }

  /** The receive worker over any run of signals. */
  method Listen(decoder: WfrAckDecoder, hs: seq<Heard>) returns (events: seq<AckEvent>)
    requires decoder.Valid()
    modifies decoder, decoder.payloadBuf
    ensures decoder.Valid() && decoder.View() == TickRun(old(decoder.View()), TraceOf(hs))
    ensures events == Events(TickOutcomes(old(decoder.View()), TraceOf(hs)))
  {
    events := [];
    ghost var before := decoder.View();
    for i := 0 to |hs|
      invariant decoder.Valid()
      invariant decoder.View() == TickRun(before, TraceOf(hs[..i]))
      invariant events == Events(TickOutcomes(before, TraceOf(hs[..i])))
    {
      OneMoreSignal(before, hs, i);
      var event := OnSignal(decoder, hs[i].signal, hs[i].ms % TICK_MODULUS);
      events := events + if event.Some? then [event.value] else [];
    }
    assert hs[..|hs|] == hs;
  }

  lemma OneMoreSignal(link: Link<nat>, hs: seq<Heard>, i: nat)
    requires i < |hs|
    ensures var before, after := TraceOf(hs[..i]), TraceOf(hs[..i + 1]);
            if EventOf(hs[i]) == [] then after == before
            else
              var step := TickStep(TickRun(link, before), EventOf(hs[i])[0]);
              && TickRun(link, after) == step.0
              && Events(TickOutcomes(link, after)) ==
                 Events(TickOutcomes(link, before)) + if step.1.Delivered? then [Classify(step.1.payload)] else []
  {
    var before := TraceOf(hs[..i]);
    assert hs[..i + 1][..i] == hs[..i];
    if EventOf(hs[i]) != [] {
      var e := EventOf(hs[i])[0];
      TickSnoc(link, before, e);
      EventsSnoc(TickOutcomes(link, before), TickStep(TickRun(link, before), e).1);
    }
  }

  /** The air, in the other direction: what the worker hears when some frames are sent. */
  type Channel = seq<Frame> -> seq<Heard>

  /** It may add foreign scancodes and undecoded signals, and takes less than 30 s. */
  ghost predicate Carries(channel: Channel, fs: seq<Frame>) {
    Ours(DaemonTrace(TraceOf(channel(fs)))) == fs && Brief(TraceOf(channel(fs)))
  }

  /** What is heard of a pass that is sent in part or whole. */
  lemma {:induction false} PartRaises(payload: seq<byte>, crc: byte, n: nat, tr: seq<MsEvent>)
    requires 1 <= |payload| <= 255 && crc == Crc8(payload) && n <= |payload| + 2
    requires Ours(DaemonTrace(tr)) == PassWith(payload, crc, 0)[..n] && Brief(tr)
    ensures Events(TickOutcomes(Idle, tr)) == if n == |payload| + 2 then [Classify(payload)] else []
  {
    var fs := PassWith(payload, crc, 0);
    assert fs[..|fs|] == fs;
    if n == |payload| + 2 {
      PassRaises(payload, crc, tr);
    } else if tr != [] {
      BriefRun(tr);
      CutShort(Idle, DaemonTrace(tr), payload, 0, n);
      EventsOfDeliveries(Idle, DaemonTrace(tr));
    }
  }

  ghost predicate NoneForeign(fs: seq<Frame>) {
    forall f :: f in fs ==> !KindOf(f).Foreign?
  }

  ghost predicate Faithful(channel: Channel) {
    forall fs :: NoneForeign(fs) ==> Carries(channel, fs)
  }

  lemma PartNotForeign(payload: seq<byte>, crc: byte, n: nat)
    requires |payload| <= 255 && n <= |payload| + 2
    ensures NoneForeign(PassWith(payload, crc, 0)[..n])
  {
    PassNotForeign(payload, crc, 0);
    assert forall f :: f in PassWith(payload, crc, 0)[..n] ==> f in PassWith(payload, crc, 0);
  }

  lemma {:induction false} PartHeard(channel: Channel, payload: seq<byte>, crc: byte, n: nat, sent: seq<Frame>)
    requires Faithful(channel) && 1 <= |payload| <= 255 && crc == Crc8(payload) && n <= |payload| + 2
    requires sent == PassWith(payload, crc, 0)[..n]
    ensures Events(TickOutcomes(Idle, TraceOf(channel(sent)))) == if n == |payload| + 2 then [Classify(payload)] else []
  {
    PartNotForeign(payload, crc, n);
    assert Carries(channel, sent);
    PartRaises(payload, crc, n, TraceOf(channel(sent)));
  }

  lemma {:induction false} NothingHeard(channel: Channel)
    requires Faithful(channel)
    ensures Events(TickOutcomes(Idle, TraceOf(channel([])))) == []
  {
    assert NoneForeign([]);
    assert Carries(channel, []);
    var tr := TraceOf(channel([]));
    if tr != [] {
      BriefRun(tr);
      OnlyForeign(Idle, DaemonTrace(tr));
      EventsOfDeliveries(Idle, DaemonTrace(tr));
    }
  }

  /** From end to end: the daemon acknowledges and a fresh listener hears it.  It reports what it should if
      everything was written, once, and nothing at all otherwise. */
  method OverTheAir(tx: LircTx, open: bool, success: bool, ip: Option<seq<byte>>, channel: Channel, decoder: WfrAckDecoder)
    returns (ok: bool, events: seq<AckEvent>)
    requires ip.Some? ==> IsCString(ip.value)
    requires decoder.Valid() && decoder.View() == Idle && tx.sent == [] && Faithful(channel)
    modifies tx, decoder, decoder.payloadBuf
    ensures events ==
            if !ok then []
            else if success && ip.Some? then [AckSuccess(Take(ip.value, RESULT_TEXT_MAX))]
            else [AckFail]
  {
    ghost var n;
    ok, n := SendAck(tx, open, success, ip);
    SentHeard(channel, open, success, ip, tx.sent, ok, n);
    events := Listen(decoder, channel(tx.sent));
  }

  /** What SendAck says was sent, and what is heard of it. */
  lemma {:induction false} SentHeard(channel: Channel, open: bool, success: bool, ip: Option<seq<byte>>, sent: seq<Frame>, ok: bool, n: nat)
    requires Faithful(channel) && (ip.Some? ==> IsCString(ip.value))
    requires var payload := AckPayload(success, ip);
             if !open || |payload| > 255 then !ok && sent == []
             else n <= |payload| + 2 && sent == PassFrames(payload, 0)[..n] && (ok <==> n == |payload| + 2)
    ensures Events(TickOutcomes(Idle, TraceOf(channel(sent)))) ==
            if !ok then []
            else if success && ip.Some? then [AckSuccess(Take(ip.value, RESULT_TEXT_MAX))]
            else [AckFail]
  {
    var payload := AckPayload(success, ip);
    if !open || |payload| > 255 {
      NothingHeard(channel);
    } else {
      PartHeard(channel, payload, Crc8(payload), n, sent);
      ClassifyAck(success, ip);
    }
  }

  /** As the daemon would read it, too: up to the first NUL. */
  lemma AckNeverParses(success: bool, ip: Option<seq<byte>>)
    ensures Codec.Parse(CStr(AckPayload(success, ip))) == None
  {
    var p := AckPayload(success, ip);
    assert p[0] == Ascii("OK:")[0] || p[0] == Ascii("FAIL")[0];
    assert CStr(p)[0] != Codec.WIFI[0];
  }

  /** The two directions cannot be mistaken for one another. */
  lemma NoCrosstalk(success: bool, ip: Option<seq<byte>>, c: Codec.Creds)
    ensures Codec.Parse(AckPayload(success, ip)) == None
    ensures Codec.CStringCreds(c) ==> Classify(Codec.Build(c)) == AckFail
  {
    var p := AckPayload(success, ip);
    assert p[0] != Codec.WIFI[0];
    if Codec.CStringCreds(c) {
      Codec.BuildIsCString(c);
      CStrOfCString(Codec.Build(c));
      assert Codec.Build(c)[0] == Codec.WIFI[0] != OK_PREFIX[0];
    }
  }
}
