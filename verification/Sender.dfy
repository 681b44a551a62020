/** The handheld's sender: builds the payload and emits its frames one by one, until done or cancelled. */
module Sender {
  import opened Bytes
  import opened Crc
  import opened CrcAlgebra
  import opened Link
  import opened Transmission
  import Codec
  import opened CodecBuffers

  const RETRANSMIT_COUNT := 1

  /** The infrared LED: what has been sent so far. */
  class IrLed {
    var sent: seq<Frame>

    method Send(address: byte, command: byte)
      modifies this
      ensures sent == old(sent) + [Frame(address, command)]
    {
      sent := sent + [Frame(address, command)];
    }
  }

  /** The progress callback, as a function of the octets sent so far and the total; false cancels. */
  type Progress = (nat, nat) -> bool

  /** The first report, from the n-th on, that the callback answers with false; total + 1 if there is none. */
  function FirstRefusal(progress: Progress, n: nat, total: nat): (k: nat)
    requires n <= total + 1
    ensures n <= k <= total + 1
    ensures k <= total ==> !progress(k, total)
    ensures forall j :: n <= j < k ==> progress(j, total)
    decreases total + 1 - n
  {
    if n > total || !progress(n, total) then n else FirstRefusal(progress, n + 1, total)
  }

  /** How many frames of a pass are out before report k is made; report 0 comes before everything. */
  function FramesOut(k: nat): nat {
    if k == 0 then 0 else k + 1
  }

  /** One attempt: START, the octets with a report after each, and END. */
  method SendPass(led: IrLed, payload: seq<byte>, crc: byte, pass: byte, progress: Progress) returns (ok: bool)
    requires |payload| <= 255 && pass < 4
    modifies led
    ensures var k := FirstRefusal(progress, 1, |payload|);
            && (ok <==> k == |payload| + 1)
            && led.sent == old(led.sent) + PassWith(payload, crc, pass)[..FramesOut(k)]
  {
    ghost var fs, before := PassWith(payload, crc, pass), led.sent;
    led.Send(Address(Start, pass), |payload|);
    for i := 0 to |payload|
      invariant led.sent == before + fs[..i + 1]
      invariant FirstRefusal(progress, i + 1, |payload|) == FirstRefusal(progress, 1, |payload|)
    {
      led.Send(Address(Data, pass), payload[i]);
      DataFrameAt(payload, crc, pass, i);
      assert fs[..i + 2] == fs[..i + 1] + [fs[i + 1]];
      if !progress(i + 1, |payload|) {
        return false;
      }
    }
    led.Send(Address(End, pass), crc);
    assert fs[..|payload| + 2] == fs[..|payload| + 1] + [Frame(Address(End, pass), crc)];
    return true;
  }

  /** The payload in a 256-octet buffer and its checksum; empty if there is nothing to send or no room. */
  method Prepare(creds: Codec.Creds) returns (payload: seq<byte>, crc: byte)
    ensures payload == if creds.ssid == [] || |Codec.Build(creds)| > 255 then [] else Codec.Build(creds)
    ensures crc == Crc8(payload)
  {
    if creds.ssid == [] {
      return [], 0;
    }
    var wifiStr := new byte[256](_ => 0);
    var wifiLen := BuildWifiString(creds, wifiStr);
    payload := wifiStr[..wifiLen];
    crc := ComputeCrc8(wifiStr, wifiLen);
  }

  method SendAll(led: IrLed, payload: seq<byte>, crc: byte, progress: Progress) returns (ok: bool)
    requires 1 <= |payload| <= 255
    modifies led
    ensures var k := FirstRefusal(progress, 0, |payload|);
            && (ok <==> k == |payload| + 1)
            && led.sent == old(led.sent) + PassWith(payload, crc, 0)[..FramesOut(k)]
  {
    if !progress(0, |payload| * RETRANSMIT_COUNT) {
      return false;
    }
    ok := true;
    for attempt := 0 to RETRANSMIT_COUNT
      invariant attempt == 0 ==> ok && led.sent == old(led.sent)
      invariant attempt == 1 ==>
                  && ok && FirstRefusal(progress, 1, |payload|) == |payload| + 1
                  && led.sent == old(led.sent) + PassWith(payload, crc, 0)[..|payload| + 2]
    {
      ok := SendPass(led, payload, crc, attempt % 4, progress);
      if !ok {
        return false;
      }
    }
  }

  /** Sends everything exactly when no report is refused; otherwise stops at the first refusal, with the
      START and the octets reported so far out, and never the END. */
  method TransmitCredentials(led: IrLed, creds: Codec.Creds, progress: Progress) returns (ok: bool)
    modifies led
    ensures var payload := Codec.Build(creds);
            if creds.ssid == [] || |payload| > 255 then !ok && led.sent == old(led.sent)
            else
              var k := FirstRefusal(progress, 0, |payload|);
              && (ok <==> k == |payload| + 1)
              && led.sent == old(led.sent) + PassFrames(payload, 0)[..FramesOut(k)]
  {
    Codec.BuildLength(creds);
    var payload, crc := Prepare(creds);
    if payload == [] {
      return false;
    }
    ok := SendAll(led, payload, crc, progress);
  }

  lemma DataFrameAt(payload: seq<byte>, crc: byte, pass: byte, i: nat)
    requires |payload| <= 255 && pass < 4 && i < |payload|
    ensures PassWith(payload, crc, pass)[i + 1] == Frame(Address(Data, pass), payload[i])
  {}

  /** What is on the air when report k was refused, in numbers: nothing before the first report; then the START
      and the first k octets; and the END too when none was refused. */
  lemma OnTheAirInNumbers(payload: seq<byte>, crc: byte, k: nat)
    requires |payload| <= 255 && k <= |payload| + 1
    ensures var fs := PassWith(payload, crc, 0)[..FramesOut(k)];
            && |fs| == (if k == 0 then 0 else k + 1)
            && (k > 0 ==> fs[0] == Frame(0xA0, |payload|))
            && (forall i :: 0 <= i < |payload| && i < k ==> fs[i + 1] == Frame(0xA4, payload[i]))
            && (k == |payload| + 1 ==> fs[k] == Frame(0xA8, crc))
  {
    PassInNumbers(payload, crc, 0);
  }

  /** A cancelled send never reaches the other side as a delivery. */
  lemma CancelledDeliversNothing(payload: seq<byte>, k: nat, link: Link<int>, tr: seq<Event>)
    requires 1 <= |payload| <= 255 && k <= |payload|
    requires Ours(tr) == PassFrames(payload, 0)[..FramesOut(k)]
    ensures Deliveries(link, tr) == []
  {
    CutShort(link, tr, payload, 0, FramesOut(k));
  }

  /** A completed one of valid credentials is delivered, once, and parses. */
  lemma CompletedDelivers(c: Codec.Creds, link: Link<int>, tr: seq<Event>)
    requires Codec.ValidCreds(c)
    requires Ours(tr) == (Codec.BuildSize(c); PassFrames(Codec.Build(c), 0)[..FramesOut(|Codec.Build(c)| + 1)])
    requires NoTimeout(link, tr)
    ensures Deliveries(link, tr) == [Codec.Build(c)] && Codec.Parse(Codec.Build(c)) == Some(c)
  {
    Codec.BuildSize(c);
    var fs := PassFrames(Codec.Build(c), 0);
    assert fs[..|fs|] == fs;
    OnePass(link, tr, Codec.Build(c), Crc8(Codec.Build(c)), 0);
    Codec.RoundTrip(c);
  }
}
