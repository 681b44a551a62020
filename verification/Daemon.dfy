/** The daemon's main loop: scancodes in, credentials to connect with out. */
module Daemon {
  import opened Bytes
  import opened Crc
  import opened Codec
  import opened CodecBuffers
  import opened Link
  import opened History
  import opened DaemonDecoder
  import opened Transmission
  import opened Sender
  import Ack

  /** What one read of the receiver gives: an error or an interruption, or a scancode. */
  datatype Reading = NoScancode | Read(code: Scancode)

  ghost predicate ValidReadings(rs: seq<Reading>) {
    forall i :: 0 <= i < |rs| && rs[i].Read? ==> rs[i].code.now.Valid()
  }

  /** The scancodes of a run; failed reads leave no trace. */
  function TraceOf(rs: seq<Reading>): seq<Event> {
    if rs == [] then []
    else TraceOf(rs[..|rs| - 1]) + if rs[|rs| - 1].Read? then [rs[|rs| - 1].code.AsEvent()] else []
  }

  /** The credentials that payloads ask to be connected with, each payload read as a C string. */
  function Requests(payloads: seq<seq<byte>>): seq<Creds> {
    if payloads == [] then [] else Request(payloads[0]) + Requests(payloads[1..])
  }

  function Request(payload: seq<byte>): seq<Creds> {
    var c := Parse(CStr(payload));
    if c.Some? then [c.value] else []
  }

  lemma {:induction false} RequestsConcat(a: seq<seq<byte>>, b: seq<seq<byte>>)
    ensures Requests(a + b) == Requests(a) + Requests(b)
    decreases |a|
  {
    if a == [] {
      assert a + b == b;
    } else {
      assert (a + b)[0] == a[0] && (a + b)[1..] == a[1..] + b;
      RequestsConcat(a[1..], b);
      assert Request(a[0]) + (Requests(a[1..]) + Requests(b)) == (Request(a[0]) + Requests(a[1..])) + Requests(b);
    }
  }

  lemma RequestOf(p: seq<byte>, c: Creds)
    requires IsCString(p) && Parse(p) == Some(c)
    ensures Requests([p]) == [c]
  {
    CStrOfCString(p);
    assert [p][1..] == [];
  }

  /** One payload asks for nothing exactly when it does not parse, and otherwise for what it parses to. */
  lemma RequestExactlyWhen(p: seq<byte>)
    ensures Requests([p]) == [] <==> Parse(CStr(p)) == None
    ensures forall c :: Requests([p]) == [c] <==> Parse(CStr(p)) == Some(c)
  {
    assert [p][1..] == [];
    assert forall c :: Requests([p]) == [c] ==> Requests([p])[0] == c;
  }

  /** A run asks for nothing exactly when no payload parses. */
  lemma {:induction false} NothingAskedExactlyWhen(ps: seq<seq<byte>>)
    ensures Requests(ps) == [] <==> forall i :: 0 <= i < |ps| ==> Parse(CStr(ps[i])) == None
    decreases |ps|
  {
    if ps != [] {
      var more := ps[1..];
      NothingAskedExactlyWhen(more);
      assert ps == [ps[0]] + more;
      assert Requests(ps) == [] <==> Request(ps[0]) == [] && Requests(more) == [];
      assert forall i :: 0 <= i < |more| ==> ps[i + 1] == more[i];
      if Parse(CStr(ps[0])) == None && Requests(more) == [] {
        forall i | 0 <= i < |ps|
          ensures Parse(CStr(ps[i])) == None
        {
          assert i > 0 ==> ps[i] == more[i - 1];
        }
      }
    }
  }

  /** And for given credentials only if some payload parses to them. */
  lemma {:induction false} AskedFor(ps: seq<seq<byte>>, c: Creds) returns (i: nat)
    requires c in Requests(ps)
    ensures i < |ps| && Parse(CStr(ps[i])) == Some(c)
    decreases |ps|
  {
    if c in Request(ps[0]) {
      i := 0;
    } else {
      var j := AskedFor(ps[1..], c);
      i := j + 1;
    }
  }

  /** Acknowledgements, of this daemon or another, ask for nothing, however many a run delivers. */
  lemma AcksAskNothing(ps: seq<seq<byte>>)
    requires forall i :: 0 <= i < |ps| ==> IsAck(ps[i])
    ensures Requests(ps) == []
  {
    forall i | 0 <= i < |ps|
      ensures Parse(CStr(ps[i])) == None
    {
      assert IsAck(ps[i]);
      var success, ip :| ps[i] == Ack.AckPayload(success, ip);
      Ack.AckNeverParses(success, ip);
    }
    NothingAskedExactlyWhen(ps);
  }

  ghost predicate IsAck(p: seq<byte>) {
    exists success, ip :: p == Ack.AckPayload(success, ip)
  }

  lemma OneAckAsksNothing(payload: seq<byte>, success: bool, ip: Option<seq<byte>>)
    requires payload == Ack.AckPayload(success, ip)
    ensures Requests([payload]) == []
  {
    Ack.AckNeverParses(success, ip);
    RequestExactlyWhen(payload);
  }

  /** So a daemon that hears the acknowledgement frames of another asks for nothing. */
  lemma {:induction false} HearingAnAckAsksNothing(link: Link<int>, tr: seq<Event>, success: bool, ip: Option<seq<byte>>,
                                                   payload: seq<byte>, crc: byte)
    requires payload == Ack.AckPayload(success, ip) && 1 <= |payload| <= 255 && crc == Crc8(payload)
    requires Ours(tr) == PassWith(payload, crc, 0) && NoTimeout(link, tr)
    ensures Requests(Deliveries(link, tr)) == []
  {
    OnePass(link, tr, payload, crc, 0);
    OneAckAsksNothing(payload, success, ip);
  }

  /** A payload in the receive buffer, up to its first NUL, goes to the parser; what parses goes on to the
      network. */
  method HandleCredentials(payload: array<byte>) returns (asked: seq<Creds>)
    ensures asked == Request(payload[..])
  {
    var str := CStr(payload[..]);
    var creds := new CredsBuffer();
    var ok := ParseWifiString(str, creds);
    if !ok {
      return [];
    }
    CStrOfCString(str);
    asked := [Creds(CStr(creds.ssid[..]), CStr(creds.password[..]), creds.security, creds.hidden)];
  }

  /** One turn of the loop. */
  method Hear(decoder: WfrDecoder, r: Reading, payload: array<byte>) returns (asked: seq<Creds>)
    requires decoder.Valid() && (r.Read? ==> r.code.now.Valid())
    requires payload != decoder.payloadBuf && payload.Length == OUT_SIZE
    modifies decoder, decoder.payloadBuf, payload
    ensures decoder.Valid()
    ensures r.NoScancode? ==> asked == [] && decoder.View() == old(decoder.View())
    ensures r.Read? ==>
              var step := Step(old(decoder.View()), r.code.AsEvent());
              decoder.View() == step.0 && asked == Requests(Payload(step.1))
  {
    if r.NoScancode? {
      return [];
    }
    ghost var outcome := Step(decoder.View(), r.code.AsEvent()).1;
    var result := decoder.FeedScancode(r.code.now, r.code.address, r.code.command, payload);
    asked := [];
    if result > 0 {
      RequestOfBuffer(outcome.payload, payload[..]);
      asked := HandleCredentials(payload);
    }
  }

  lemma RequestOfBuffer(p: seq<byte>, buf: seq<byte>)
    requires p < buf && buf[|p|] == 0
    ensures Request(buf) == Request(p) == Requests([p])
  {
    CStrStored(p, buf);
    assert [p][1..] == [];
  }

  /** The loop over any finite run of reads asks for exactly the credentials that the delivered payloads hold.
      On a fresh decoder those are the payloads that the history of scancodes determines. */
  method Listen(decoder: WfrDecoder, rs: seq<Reading>) returns (asked: seq<Creds>)
    requires decoder.Valid() && ValidReadings(rs)
    modifies decoder, decoder.payloadBuf
    ensures decoder.Valid() && decoder.View() == Run(old(decoder.View()), TraceOf(rs))
    ensures asked == Requests(Deliveries(old(decoder.View()), TraceOf(rs)))
    ensures old(decoder.View()) == Idle ==> asked == Requests(PayloadsBefore(TraceOf(rs), |TraceOf(rs)|))
  {
    asked := [];
    var payload := new byte[OUT_SIZE](_ => 0);
    ghost var before := decoder.View();
    for i := 0 to |rs|
      invariant decoder.Valid()
      invariant decoder.View() == Run(before, TraceOf(rs[..i]))
      invariant asked == Requests(Deliveries(before, TraceOf(rs[..i])))
    {
      var more := Hear(decoder, rs[i], payload);
      OneMoreReading(before, rs, i);
      asked := asked + more;
    }
    assert rs[..|rs|] == rs;
    WholeRun(TraceOf(rs));
  }

  lemma OneMoreReading(link: Link<int>, rs: seq<Reading>, i: nat)
    requires i < |rs|
    ensures var before, after := TraceOf(rs[..i]), TraceOf(rs[..i + 1]);
            if rs[i].NoScancode? then after == before
            else
              var step := Step(Run(link, before), rs[i].code.AsEvent());
              && Run(link, after) == step.0
              && Requests(Deliveries(link, after)) == Requests(Deliveries(link, before)) + Requests(Payload(step.1))
  {
    var before, after := TraceOf(rs[..i]), TraceOf(rs[..i + 1]);
    assert rs[..i + 1][..i] == rs[..i];
    if rs[i].Read? {
      var e := rs[i].code.AsEvent();
      assert after == before + [e] && after[..|before|] == before;
      RunSnoc(link, after, |before|);
      assert after[..|before| + 1] == after;
      RequestsConcat(Deliveries(link, before), Payload(Step(Run(link, before), e).1));
    }
  }

  lemma WholeRun(tr: seq<Event>)
    ensures Deliveries(Idle, tr) == PayloadsBefore(tr, |tr|)
  {
    DeliveriesByHistory(tr, |tr|);
    assert tr[..|tr|] == tr;
  }

  // ---------------------------------------------------------------- from the sender to the network

  /** The air: what the daemon reads when some frames are sent. */
  type Channel = seq<Frame> -> seq<Reading>

  /** It may add foreign scancodes and failed reads, and takes less than 30 s from any START on. */
  ghost predicate Carries(channel: Channel, fs: seq<Frame>, link: Link<int>) {
    var rs := channel(fs);
    ValidReadings(rs) && Ours(TraceOf(rs)) == fs && NoTimeout(link, TraceOf(rs))
  }

  /** What the sender has emitted when report k was refused, or all of it. */
  function Emitted(c: Creds, k: nat): seq<Frame>
    requires ValidCreds(c) && k <= |Build(c)| + 1
  {
    BuildSize(c);
    PassFrames(Build(c), 0)[..FramesOut(k)]
  }

  lemma CompletedIsHeard(c: Creds, link: Link<int>, tr: seq<Event>)
    requires ValidCreds(c)
    requires Ours(tr) == Emitted(c, |Build(c)| + 1) && NoTimeout(link, tr)
    ensures Requests(Deliveries(link, tr)) == [c]
  {
    BuildSize(c);
    CompletedDelivers(c, link, tr);
    RequestOf(Build(c), c);
  }

  lemma EmittedIsHeard(c: Creds, k: nat, link: Link<int>, tr: seq<Event>)
    requires ValidCreds(c) && k <= |Build(c)| + 1
    requires Ours(tr) == Emitted(c, k) && NoTimeout(link, tr)
    ensures Requests(Deliveries(link, tr)) == if k == |Build(c)| + 1 then [c] else []
  {
    BuildSize(c);
    if k == |Build(c)| + 1 {
      CompletedIsHeard(c, link, tr);
    } else {
      CancelledDeliversNothing(Build(c), k, link, tr);
    }
  }

  /** The sender on valid credentials: what is out depends on the report that was refused, if any. */
  method Send(led: IrLed, c: Creds, progress: Progress) returns (ok: bool, ghost k: nat)
    requires ValidCreds(c) && led.sent == []
    modifies led
    ensures k <= |Build(c)| + 1 && led.sent == Emitted(c, k)
    ensures ok <==> k == |Build(c)| + 1
    ensures ok <==> forall j :: 0 <= j <= |Build(c)| ==> progress(j, |Build(c)|)
  {
    BuildSize(c);
    k := FirstRefusal(progress, 0, |Build(c)|);
    ok := TransmitCredentials(led, c, progress);
  }

  /** From end to end: valid credentials are sent, carried and listened to.  The daemon asks for exactly the
      credentials that were entered, once, if the send was completed, and for nothing if it was cancelled. */
  method OverTheAir(led: IrLed, c: Creds, progress: Progress, channel: Channel, decoder: WfrDecoder)
    returns (ok: bool, asked: seq<Creds>)
    requires ValidCreds(c) && led.sent == [] && decoder.Valid()
    requires forall k: nat :: k <= |Build(c)| + 1 ==> Carries(channel, Emitted(c, k), decoder.View())
    modifies led, decoder, decoder.payloadBuf
    ensures asked == if ok then [c] else []
    ensures ok <==> forall j :: 0 <= j <= |Build(c)| ==> progress(j, |Build(c)|)
  {
    ghost var link, k := decoder.View(), 0;
    ok, k := Send(led, c, progress);
    assert Carries(channel, led.sent, link);
    EmittedIsHeard(c, k, link, TraceOf(channel(led.sent)));
    asked := Listen(decoder, channel(led.sent));
  }
}
