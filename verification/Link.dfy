/** One reassembly link, seen from outside: which transmission is open and what has arrived in the current
    pass.  Both decoders of the system, the daemon's and the handheld's, are proved to be this machine;
    they differ only in their clocks, so the clock type is a parameter and lateness is told from outside. */
module Link {
  import opened Bytes
  import opened Crc

  /** One scancode: an address octet (magic, frame type, pass) and a command octet. */
  datatype Frame = Frame(address: byte, command: byte)

  datatype Kind = Start | Data | End | Reserved | Foreign

  /** High nibble 0xA, then two bits of type; the low two bits are the pass number. */
  function KindOf(f: Frame): Kind {
    if f.address / 16 != 0xA then Foreign
    else match f.address / 4 % 4
      case 0 => Start
      case 1 => Data
      case 2 => End
      case _ => Reserved
  }

  function PassOf(f: Frame): byte {
    f.address % 4
  }

  function Address(kind: Kind, pass: byte): byte
    requires kind.Start? || kind.Data? || kind.End?
    requires pass < 4
    ensures KindOf(Frame(Address(kind, pass), 0)) == kind
  {
    0xA0 + (if kind.Start? then 0 else if kind.Data? then 4 else 8) + pass
  }

  /** The address octets in numbers: magic and frame type to the left, the pass number in the two low bits. */
  lemma AddressInNumbers(kind: Kind, pass: byte, command: byte)
    requires pass < 4 && (kind.Start? || kind.Data? || kind.End?)
    ensures Address(kind, pass) == match kind case Start => 0xA0 + pass case Data => 0xA4 + pass case _ => 0xA8 + pass
    ensures KindOf(Frame(Address(kind, pass), command)) == kind && PassOf(Frame(Address(kind, pass), command)) == pass
  {}

  /** And what each address octet is. */
  lemma KindInNumbers(f: Frame)
    ensures KindOf(f).Start? <==> 0xA0 <= f.address <= 0xA3
    ensures KindOf(f).Data? <==> 0xA4 <= f.address <= 0xA7
    ensures KindOf(f).End? <==> 0xA8 <= f.address <= 0xAB
    ensures KindOf(f).Reserved? <==> 0xAC <= f.address <= 0xAF
    ensures !KindOf(f).Foreign? ==> PassOf(f) == (f.address - 0xA0) % 4
  {}

  datatype Link<T> =
    | Idle
    | Receiving(expected: nat, data: seq<byte>, start: T)

  ghost predicate WellFormed<T>(link: Link<T>) {
    link.Receiving? ==> 1 <= link.expected <= 255 && |link.data| <= link.expected
  }

  /** What one call reports: 0, -1, or a payload and its length. */
  datatype Outcome = More | Failed | Delivered(payload: seq<byte>)

  function Code(o: Outcome): int {
    match o
    case More => 0
    case Failed => -1
    case Delivered(p) => |p|
  }

  /** The receive buffers of both callers. */
  const OUT_SIZE := 256

  // ---------------------------------------------------------------- time, in nanoseconds

  const TIMEOUT_NANOS := 30_000_000_000

  predicate Late(start: int, now: int) {
    now - start >= TIMEOUT_NANOS
  }

  /** Thirty seconds. */
  lemma LateInNumbers(start: int, now: int)
    ensures Late(start, now) <==> now - start >= 30 * 1_000_000_000
  {}

  /** What the caller is told: the length of what was delivered, -1 for a failure, 0 otherwise. */
  lemma CodeInNumbers(o: Outcome)
    ensures Code(o) == match o case Delivered(p) => |p| case Failed => -1 case More => 0
  {}

  /** One scancode.  `late` says that the open transmission began at least 30 s ago. */
  function Feed<T>(link: Link<T>, late: bool, now: T, f: Frame, outSize: nat): (Link<T>, Outcome) {
    if link.Receiving? && late then (Idle, Failed) else Accept(link, now, f, outSize)
  }

  /** A scancode that is not late, frame type by frame type. */
  function Accept<T>(link: Link<T>, now: T, f: Frame, outSize: nat): (Link<T>, Outcome) {
    match KindOf(f)
    case Foreign => (link, More)
    case Reserved => (link, More)
    case Start =>
      if f.command == 0 then (link, Failed) else (Receiving(f.command, [], now), More)
    case Data =>
      if link.Receiving? && |link.data| < link.expected
      then (link.(data := link.data + [f.command]), More)
      else (link, More)
    case End =>
      if link.Idle? || |link.data| != link.expected then (link, More)
      else Conclude(link, f.command == Crc8(link.data), outSize)
  }

  /** An END that finds every octet: a failed checksum clears the cursor and nothing else. */
  function Conclude<T>(link: Link<T>, holds: bool, outSize: nat): (Link<T>, Outcome)
    requires link.Receiving?
  {
    if !holds then (link.(data := []), More)
    else if link.expected >= outSize then (Idle, Failed)
    else (Idle, Delivered(link.data))
  }

  // ---------------------------------------------------------------- traces

  /** A scancode and the moment it arrives. */
  datatype Event = Event(now: int, frame: Frame)

  predicate LateFor(link: Link<int>, now: int) {
    link.Receiving? && Late(link.start, now)
  }

  function Step(link: Link<int>, e: Event): (Link<int>, Outcome) {
    Feed(link, LateFor(link, e.now), e.now, e.frame, OUT_SIZE)
  }

  lemma EndConcludes(link: Link<int>, e: Event, holds: bool)
    requires link.Receiving? && link.expected == |link.data| < OUT_SIZE && !LateFor(link, e.now)
    requires KindOf(e.frame).End? && holds == (e.frame.command == Crc8(link.data))
    ensures Step(link, e) == if holds then (Idle, Delivered(link.data)) else (link.(data := []), More)
  {}

  /** Exactly when a scancode is reported as -1: it comes too late for the open transmission, or it is a START of
      length zero.  A failed checksum is not among the causes. */
  lemma FailedExactlyWhen(link: Link<int>, e: Event)
    requires WellFormed(link)
    ensures Code(Step(link, e).1) == -1 <==> LateFor(link, e.now) || (KindOf(e.frame).Start? && e.frame.command == 0)
  {}

  lemma NothingElseDelivers(link: Link<int>, e: Event)
    requires link.Receiving? && KindOf(e.frame).End? && !LateFor(link, e.now) ==> |link.data| != link.expected
    ensures !Step(link, e).1.Delivered?
  {}

  function Run(link: Link<int>, tr: seq<Event>): Link<int>
    decreases |tr|
  {
    if tr == [] then link else Run(Step(link, tr[0]).0, tr[1..])
  }

  function Outcomes(link: Link<int>, tr: seq<Event>): (os: seq<Outcome>)
    ensures |os| == |tr|
    decreases |tr|
  {
    if tr == [] then [] else [Step(link, tr[0]).1] + Outcomes(Step(link, tr[0]).0, tr[1..])
  }

  /** The payloads handed over during a run, in order. */
  function Deliveries(link: Link<int>, tr: seq<Event>): seq<seq<byte>>
    decreases |tr|
  {
    if tr == [] then []
    else Payload(Step(link, tr[0]).1) + Deliveries(Step(link, tr[0]).0, tr[1..])
  }

  function Payload(o: Outcome): seq<seq<byte>> {
    if o.Delivered? then [o.payload] else []
  }

  /** No scancode of the run arrives on a transmission that has timed out. */
  ghost predicate NoTimeout(link: Link<int>, tr: seq<Event>)
    decreases |tr|
  {
    tr == [] || (!LateFor(link, tr[0].now) && NoTimeout(Step(link, tr[0]).0, tr[1..]))
  }

  lemma RunConcat(link: Link<int>, a: seq<Event>, b: seq<Event>)
    ensures Run(link, a + b) == Run(Run(link, a), b)
    ensures Outcomes(link, a + b) == Outcomes(link, a) + Outcomes(Run(link, a), b)
    ensures Deliveries(link, a + b) == Deliveries(link, a) + Deliveries(Run(link, a), b)
  {
    StateConcat(link, a, b);
    OutcomesConcat(link, a, b);
    DeliveriesConcat(link, a, b);
  }

  lemma {:induction false} StateConcat(link: Link<int>, a: seq<Event>, b: seq<Event>)
    ensures Run(link, a + b) == Run(Run(link, a), b)
    decreases |a|
  {
    if a == [] {
      assert a + b == b;
    } else {
      assert (a + b)[1..] == a[1..] + b;
      StateConcat(Step(link, a[0]).0, a[1..], b);
    }
  }

  lemma {:induction false} OutcomesConcat(link: Link<int>, a: seq<Event>, b: seq<Event>)
    ensures Outcomes(link, a + b) == Outcomes(link, a) + Outcomes(Run(link, a), b)
    decreases |a|
  {
    if a == [] {
      assert a + b == b;
    } else {
      assert (a + b)[1..] == a[1..] + b;
      OutcomesConcat(Step(link, a[0]).0, a[1..], b);
    }
  }

  lemma {:induction false} DeliveriesConcat(link: Link<int>, a: seq<Event>, b: seq<Event>)
    ensures Deliveries(link, a + b) == Deliveries(link, a) + Deliveries(Run(link, a), b)
    decreases |a|
  {
    if a == [] {
      assert a + b == b;
    } else {
      assert (a + b)[1..] == a[1..] + b;
      DeliveriesConcat(Step(link, a[0]).0, a[1..], b);
    }
  }

  lemma {:induction false} RunWellFormed(link: Link<int>, tr: seq<Event>)
    requires WellFormed(link)
    ensures WellFormed(Run(link, tr))
    decreases |tr|
  {
    if tr != [] {
      RunWellFormed(Step(link, tr[0]).0, tr[1..]);
    }
  }

  /** The i-th outcome is one step from the state after the first i events. */
  lemma OutcomeAt(link: Link<int>, tr: seq<Event>, i: nat)
    requires i < |tr|
    ensures Outcomes(link, tr)[i] == Step(Run(link, tr[..i]), tr[i]).1
    ensures Run(link, tr[..i + 1]) == Step(Run(link, tr[..i]), tr[i]).0
  {
    assert tr == tr[..i] + tr[i..];
    RunConcat(link, tr[..i], tr[i..]);
    assert tr[..i + 1] == tr[..i] + [tr[i]];
    RunConcat(link, tr[..i], [tr[i]]);
  }

  /** One more event: the state and the deliveries. */
  lemma RunSnoc(link: Link<int>, tr: seq<Event>, i: nat)
    requires i < |tr|
    ensures Run(link, tr[..i + 1]) == Step(Run(link, tr[..i]), tr[i]).0
    ensures Deliveries(link, tr[..i + 1]) == Deliveries(link, tr[..i]) + Payload(Step(Run(link, tr[..i]), tr[i]).1)
  {
    assert tr[..i + 1] == tr[..i] + [tr[i]];
    RunConcat(link, tr[..i], [tr[i]]);
  }
}
