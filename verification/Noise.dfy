/** Non-interference: scancodes that cannot matter, and the pass number of those that do. */
module Noise {
  import opened Bytes
  import opened Link

  /** A scancode that does nothing on this link, told from its frame and from how far the transmission is:
      foreign magic, the reserved type, a zero-length START, surplus DATA, an END that comes short, or
      DATA and END outside a transmission. */
  ghost predicate Inert(link: Link<int>, e: Event) {
    && !LateFor(link, e.now)
    && match KindOf(e.frame)
       case Foreign => true
       case Reserved => true
       case Start => e.frame.command == 0
       case Data => link.Idle? || |link.data| >= link.expected
       case End => link.Idle? || |link.data| < link.expected
  }

  lemma InertIsSilent(link: Link<int>, e: Event)
    requires WellFormed(link) && Inert(link, e)
    ensures Step(link, e).0 == link && Payload(Step(link, e).1) == []
  {}

  /** The same scancode but for the pass number. */
  ghost predicate SameButPass(e: Event, f: Event) {
    && e.now == f.now
    && e.frame.command == f.frame.command
    && KindOf(e.frame) == KindOf(f.frame)
  }

  lemma RewritingPass(e: Event, pass: byte)
    requires pass < 4
    ensures var a := e.frame.address - e.frame.address % 4 + pass;
            0 <= a < 256 && SameButPass(e, e.(frame := Frame(a, e.frame.command)))
            && PassOf(Frame(a, e.frame.command)) == pass
  {}

  /** `noisy` is `clean` with inert scancodes put in anywhere and pass numbers rewritten. */
  ghost predicate NoisyVersion(link: Link<int>, clean: seq<Event>, noisy: seq<Event>)
    decreases |noisy|
  {
    if noisy == [] then clean == []
    else
      || (Inert(link, noisy[0]) && NoisyVersion(link, clean, noisy[1..]))
      || (clean != [] && SameButPass(clean[0], noisy[0]) && NoisyVersion(Step(link, clean[0]).0, clean[1..], noisy[1..]))
  }

  /** Noise changes no delivery and leaves no trace. */
  lemma {:induction false} NoiseIsHarmless(link: Link<int>, clean: seq<Event>, noisy: seq<Event>)
    requires WellFormed(link) && NoisyVersion(link, clean, noisy)
    ensures Deliveries(link, noisy) == Deliveries(link, clean)
    ensures Run(link, noisy) == Run(link, clean)
    decreases |noisy|
  {
    if noisy == [] {
    } else if Inert(link, noisy[0]) && NoisyVersion(link, clean, noisy[1..]) {
      InertIsSilent(link, noisy[0]);
      NoiseIsHarmless(link, clean, noisy[1..]);
    } else {
      assert Step(link, clean[0]) == Step(link, noisy[0]);
      NoiseIsHarmless(Step(link, clean[0]).0, clean[1..], noisy[1..]);
    }
  }

  /** In particular one inert scancode can be inserted or deleted anywhere. */
  lemma InsertOne(link: Link<int>, a: seq<Event>, e: Event, b: seq<Event>)
    requires WellFormed(link) && Inert(Run(link, a), e)
    ensures Deliveries(link, a + [e] + b) == Deliveries(link, a + b)
  {
    RunWellFormed(link, a);
    InertIsSilent(Run(link, a), e);
    RunConcat(link, a + [e], b);
    RunConcat(link, a, [e]);
    RunConcat(link, a, b);
  }

  /** The list is complete: a scancode in time that is not inert does change the link, or it repeats the
      START that has just been seen. */
  lemma OnlyNoiseIsInert(link: Link<int>, e: Event)
    requires WellFormed(link) && !LateFor(link, e.now) && !Inert(link, e)
    ensures Step(link, e).0 != link || (KindOf(e.frame).Start? && link == Receiving(e.frame.command, [], e.now))
  {}
}
