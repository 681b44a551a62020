/** Passes from which frames are lost: what the link makes of what is left, exactly when that is a delivery,
    and that it can be a wrong one. */
module Loss {
  import opened Bytes
  import opened Crc
  import opened CrcAlgebra
  import opened Link
  import opened Transmission
  import Codec

  // ---------------------------------------------------------------- what is left of a pass

  /** Some of the frames, in order: what is left when others are lost. */
  ghost predicate Thinned(fs: seq<Frame>, left: seq<Frame>)
    decreases |fs|
  {
    if fs == [] then left == []
    else (left != [] && left[0] == fs[0] && Thinned(fs[1..], left[1..])) || Thinned(fs[1..], left)
  }

  /** The octets of the DATA frames. */
  function DataIn(fs: seq<Frame>): seq<byte> {
    if fs == [] then [] else (if KindOf(fs[0]).Data? then [fs[0].command] else []) + DataIn(fs[1..])
  }

  predicate StartArrives(fs: seq<Frame>) {
    fs != [] && KindOf(fs[0]).Start?
  }

  predicate EndArrives(fs: seq<Frame>) {
    fs != [] && KindOf(fs[|fs| - 1]).End?
  }

  /** A pass after its START: some octets, and the END or not. */
  function RestOf(x: seq<byte>, pass: byte, crc: byte, ended: bool): seq<Frame>
    requires pass < 4
  {
    DataFrames(x, pass) + if ended then [Frame(Address(End, pass), crc)] else []
  }

  lemma RestOfHead(x: seq<byte>, pass: byte, crc: byte, ended: bool)
    requires pass < 4
    ensures x != [] ==> RestOf(x, pass, crc, ended) == [Frame(Address(Data, pass), x[0])] + RestOf(x[1..], pass, crc, ended)
    ensures x == [] ==> RestOf(x, pass, crc, ended) == if ended then [Frame(Address(End, pass), crc)] else []
  {
    if x != [] {
      assert x[0..] == x;
      DataFramesTail(x, 0, pass);
    }
  }

  /** What is left after a lost START has that shape. */
  lemma {:induction false} ThinnedRest(x: seq<byte>, pass: byte, crc: byte, left: seq<Frame>)
    requires pass < 4 && Thinned(RestOf(x, pass, crc, true), left)
    ensures left == RestOf(DataIn(left), pass, crc, EndArrives(left)) && |DataIn(left)| <= |x|
    ensures !StartArrives(left)
    decreases |x|
  {
    var fs := RestOf(x, pass, crc, true);
    RestOfHead(x, pass, crc, true);
    AddressKinds(End, pass, crc);
    if x == [] {
      assert fs[1..] == [] && (Thinned(fs[1..], left) ==> left == []);
      if left != [] {
        assert Thinned(fs[1..], left[1..]) && left[1..] == [];
        assert left == [fs[0]];
      }
      RestOfHead(DataIn(left), pass, crc, EndArrives(left));
    } else {
      AddressKinds(Data, pass, x[0]);
      assert fs[1..] == RestOf(x[1..], pass, crc, true);
      if left != [] && left[0] == fs[0] && Thinned(fs[1..], left[1..]) {
        ThinnedRest(x[1..], pass, crc, left[1..]);
        assert DataIn(left) == [x[0]] + DataIn(left[1..]);
        assert EndArrives(left) == EndArrives(left[1..]);
        RestOfHead(DataIn(left), pass, crc, EndArrives(left));
        assert DataIn(left)[1..] == DataIn(left[1..]);
        assert left == [left[0]] + left[1..];
      } else {
        ThinnedRest(x[1..], pass, crc, left);
      }
    }
  }

  // ---------------------------------------------------------------- what the link makes of it

  /** What an open link holds after some more octets. */
  function Got(link: Link<int>, x: seq<byte>): seq<byte>
    requires link.Receiving?
  {
    Take(link.data + x, link.expected)
  }

  /** Octets and END without a START: exactly when that is a delivery. */
  predicate Completed(link: Link<int>, x: seq<byte>, crc: byte, ended: bool) {
    link.Receiving? && ended && |Got(link, x)| == link.expected && Crc8(Got(link, x)) == crc
  }

  /** The link afterwards. */
  function After(link: Link<int>, x: seq<byte>, ended: bool, completed: bool): Link<int> {
    if link.Idle? || completed then Idle
    else link.(data := if ended && |Got(link, x)| == link.expected then [] else Got(link, x))
  }

  /** One octet more on the link is one less to come. */
  lemma {:induction false} TakesOctet(link: Link<int>, e: Event, x: seq<byte>, ended: bool, completed: bool)
    requires WellFormed(link) && x != [] && KindOf(e.frame).Data? && e.frame.command == x[0] && !LateFor(link, e.now)
    ensures var next := Step(link, e).0;
            && WellFormed(next) && !Step(link, e).1.Delivered? && next.Idle? == link.Idle?
            && (link.Receiving? ==> next.expected == link.expected && Got(next, x[1..]) == Got(link, x))
            && After(next, x[1..], ended, completed) == After(link, x, ended, completed)
  {
    if link.Receiving? {
      assert link.data + x == (link.data + [x[0]]) + x[1..];
    }
  }

  /** Octets and perhaps an END, without a START, among foreign scancodes, on a link in any state: a delivery
      exactly when the END arrives, the octets already there and these make up all that was announced, and
      they have the checksum that the END carries. */
  lemma {:induction false} WithoutStart(link: Link<int>, tr: seq<Event>, x: seq<byte>, pass: byte, crc: byte, ended: bool)
    requires WellFormed(link) && pass < 4 && Ours(tr) == RestOf(x, pass, crc, ended) && NoTimeout(link, tr)
    ensures var completed := Completed(link, x, crc, ended);
            && Deliveries(link, tr) == (if completed then [Got(link, x)] else [])
            && Run(link, tr) == After(link, x, ended, completed)
    decreases |tr|
  {
    RestOfHead(x, pass, crc, ended);
    if Ours(tr) == [] {
      OnlyForeign(link, tr);
    } else {
      FirstOurs(tr);
      if KindOf(tr[0].frame).Foreign? {
        Passed(link, tr);
        WithoutStart(link, tr[1..], x, pass, crc, ended);
      } else if x != [] {
        AddressKinds(Data, pass, x[0]);
        Passed(link, tr);
        TakesOctet(link, tr[0], x, ended, Completed(link, x, crc, ended));
        WithoutStart(Step(link, tr[0]).0, tr[1..], x[1..], pass, crc, ended);
      } else {
        AddressKinds(End, pass, crc);
        LastEnd(link, tr, crc);
      }
    }
  }

  lemma {:induction false} LastEnd(link: Link<int>, tr: seq<Event>, crc: byte)
    requires WellFormed(link) && tr != [] && NoTimeout(link, tr)
    requires KindOf(tr[0].frame).End? && tr[0].frame.command == crc && Ours(tr[1..]) == []
    ensures var completed := Completed(link, [], crc, true);
            && Deliveries(link, tr) == (if completed then [Got(link, [])] else [])
            && Run(link, tr) == After(link, [], true, completed)
  {
    OnlyForeign(Step(link, tr[0]).0, tr[1..]);
    if link.Receiving? {
      assert link.data + [] == link.data;
      if |link.data| == link.expected {
        EndConcludes(link, tr[0], crc == Crc8(link.data));
      }
    }
  }

  /** With the START: too few octets, or no END. */
  lemma {:induction false} WithStart(link: Link<int>, tr: seq<Event>, n: byte, x: seq<byte>, pass: byte, crc: byte, ended: bool)
    requires 1 <= n && pass < 4 && |x| <= n && (ended ==> |x| < n)
    requires Ours(tr) == [Frame(Address(Start, pass), n)] + RestOf(x, pass, crc, ended) && NoTimeout(link, tr)
    ensures Deliveries(link, tr) == []
    ensures Run(link, tr).Receiving? && Run(link, tr).expected == n && Run(link, tr).data == x
    decreases |tr|
  {
    FirstOurs(tr);
    if KindOf(tr[0].frame).Foreign? {
      Passed(link, tr);
      WithStart(link, tr[1..], n, x, pass, crc, ended);
    } else {
      AddressKinds(Start, pass, n);
      var next: Link<int> := Receiving(n, [], tr[0].now);
      assert Step(link, tr[0]).0 == next;
      Passed(link, tr);
      assert Ours(tr[1..]) == RestOf(x, pass, crc, ended);
      assert [] + x == x;
      WithoutStart(next, tr[1..], x, pass, crc, ended);
    }
  }

  // ---------------------------------------------------------------- every loss

  /** What a lossy pass delivers on this link. */
  function LossDelivers(link: Link<int>, left: seq<Frame>, crc: byte): seq<seq<byte>> {
    if !StartArrives(left) && Completed(link, DataIn(left), crc, EndArrives(left)) then [Got(link, DataIn(left))] else []
  }

  /** Every loss, on a link in any state.  A pass from which any frames are lost delivers something if and only
      if its START is lost, its END arrives, and what the open transmission had together with the octets that
      arrive is as long as announced and has the checksum that the END carries; it then delivers that mixture.
      If the START arrives the transmission is open afterwards. */
  lemma {:induction false} LossyPass(link: Link<int>, tr: seq<Event>, payload: seq<byte>, crc: byte, pass: byte)
    requires WellFormed(link) && 1 <= |payload| <= 255 && pass < 4
    requires Thinned(PassWith(payload, crc, pass), Ours(tr)) && |Ours(tr)| < |payload| + 2
    requires NoTimeout(link, tr)
    ensures Deliveries(link, tr) == LossDelivers(link, Ours(tr), crc)
    ensures StartArrives(Ours(tr)) ==> Run(link, tr).Receiving? && Run(link, tr).expected == |payload|
  {
    var fs, left := PassWith(payload, crc, pass), Ours(tr);
    AddressKinds(Start, pass, |payload|);
    assert fs[1..] == RestOf(payload, pass, crc, true);
    if left != [] && left[0] == fs[0] && Thinned(fs[1..], left[1..]) {
      ThinnedRest(payload, pass, crc, left[1..]);
      var x, ended := DataIn(left[1..]), EndArrives(left[1..]);
      assert left == [fs[0]] + left[1..] && |left[1..]| == |x| + if ended then 1 else 0;
      WithStart(link, tr, |payload|, x, pass, crc, ended);
    } else {
      ThinnedRest(payload, pass, crc, left);
      WithoutStart(link, tr, DataIn(left), pass, crc, EndArrives(left));
    }
  }

  /** In particular a link that is idle, or hears the START, takes nothing from a lossy pass. */
  lemma LossIsSilent(link: Link<int>, left: seq<Frame>, crc: byte)
    requires link.Idle? || StartArrives(left)
    ensures LossDelivers(link, left, crc) == []
  {}

  /** And whatever was lost, the next complete pass gets through. */
  lemma {:induction false} LossThenRecovery(link: Link<int>, lossy: seq<Event>, good: seq<Event>, payload: seq<byte>, crc: byte,
                                            pass: byte, next: byte)
    requires WellFormed(link) && 1 <= |payload| <= 255 && pass < 4 && next < 4 && crc == Crc8(payload)
    requires Thinned(PassWith(payload, crc, pass), Ours(lossy)) && |Ours(lossy)| < |payload| + 2
    requires Ours(good) == PassWith(payload, crc, next) && NoTimeout(link, lossy + good)
    ensures Deliveries(link, lossy + good) == LossDelivers(link, Ours(lossy), crc) + [payload]
    ensures Run(link, lossy + good) == Idle
  {
    NoTimeoutSplit(link, lossy, good);
    LossyPass(link, lossy, payload, crc, pass);
    OnePass(Run(link, lossy), good, payload, crc, next);
    RunConcat(link, lossy, good);
  }

  // ---------------------------------------------------------------- a wrong delivery

  /** Three octets that can be mistaken for the first one twice and the second: each differs from the next by
      a row of the generator, like c, b and e. */
  predicate Confusable(a: byte, b: byte, z: byte) {
    XorByte(a, b) == 1 && XorByte(b, z) == 7
  }

  lemma XorByteSelf(x: byte)
    ensures XorByte(x, x) == 0
  {
    assert (x as bv8) ^ (x as bv8) == 0;
  }

  lemma SameWhenXorZero(x: byte, y: byte)
    requires XorByte(x, y) == 0
    ensures x == y
  {
    ByteBvRoundTrip(x);
    ByteBvRoundTrip(y);
    assert (x as bv8) == ((x as bv8) ^ (y as bv8)) ^ (y as bv8);
  }

  /** Zeros after a residue of zero leave it there. */
  lemma {:induction false} CrcOfZeros(d: seq<byte>, n: nat, e: seq<byte>)
    requires Crc8(d) == 0 && e == d + Repeat(0, n)
    ensures Crc8(e) == 0
    decreases n
  {
    if n == 0 {
      assert e == d;
    } else {
      var f := d + Repeat(0, n - 1);
      CrcOfZeros(d, n - 1, f);
      assert e == f + [0];
      CrcResidue(f, 0);
    }
  }

  lemma CrcOfOne(d: seq<byte>)
    requires Crc8(d) == 0
    ensures Crc8(d + [1]) == 7
  {
    CrcSnoc(d, 1, 1);
    TableEntryIsEightShifts(1);
  }

  /** The generator's own pattern, with zeros before and after, has checksum zero. */
  lemma CrcOfGenerator(m: nat, n: nat)
    ensures Crc8(Repeat(0, m) + [1] + [7] + Repeat(0, n)) == 0
  {
    var zeros := Repeat(0, m);
    assert Crc8([]) == 0 && zeros == [] + zeros;
    CrcOfZeros([], m, zeros);
    CrcOfOne(zeros);
    CrcResidue(zeros + [1], 7);
    CrcOfZeros(zeros + [1] + [7], n, zeros + [1] + [7] + Repeat(0, n));
  }

  lemma DifferenceIsGenerator(pre: seq<byte>, a: byte, b: byte, z: byte, post: seq<byte>)
    requires Confusable(a, b, z)
    ensures XorBytes(pre + [a, a, b] + post, pre + [a, b, z] + post) == Repeat(0, |pre| + 1) + [1] + [7] + Repeat(0, |post|)
  {
    var mixed, true' := pre + [a, a, b] + post, pre + [a, b, z] + post;
    var e := Repeat(0, |pre| + 1) + [1] + [7] + Repeat(0, |post|);
    forall i | 0 <= i < |e|
      ensures XorBytes(mixed, true')[i] == e[i]
    {
      var k := i - |pre|;
      assert mixed[i] == if k < 0 then pre[i] else if k < 3 then [a, a, b][k] else post[k - 3];
      assert true'[i] == if k < 0 then pre[i] else if k < 3 then [a, b, z][k] else post[k - 3];
      assert e[i] == if k == 1 then 1 else if k == 2 then 7 else 0;
      XorByteSelf(mixed[i]);
    }
  }

  lemma SameWhenDifferenceChecks(x: seq<byte>, y: seq<byte>, e: seq<byte>)
    requires |x| == |y| && e == XorBytes(x, y) && Crc8(e) == 0
    ensures Crc8(x) == Crc8(y)
  {
    CrcLinear(x, y);
    SameWhenXorZero(Crc8(x), Crc8(y));
  }

  /** The mixture has the checksum of the true payload. */
  lemma MixtureChecks(pre: seq<byte>, a: byte, b: byte, z: byte, post: seq<byte>, x: seq<byte>, y: seq<byte>)
    requires Confusable(a, b, z) && x == pre + [a, a, b] + post && y == pre + [a, b, z] + post
    ensures Crc8(x) == Crc8(y)
  {
    DifferenceIsGenerator(pre, a, b, z, post);
    CrcOfGenerator(|pre| + 1, |post|);
    SameWhenDifferenceChecks(x, y, Repeat(0, |pre| + 1) + [1] + [7] + Repeat(0, |post|));
  }

  /** The SSID with its three confusable octets mistaken. */
  function Mistaken(c: Codec.Creds, u: seq<byte>, a: byte, b: byte, v: seq<byte>): Codec.Creds {
    c.(ssid := u + [a, a, b] + v)
  }

  /** The payload around three octets of the SSID that need no escape. */
  function Before(c: Codec.Creds, u: seq<byte>): seq<byte> {
    Codec.BeforeSsid(c) + Codec.Key(Codec.KEY_S) + Codec.Escape(u)
  }

  function Behind(c: Codec.Creds, v: seq<byte>): seq<byte> {
    Codec.Escape(v) + [Codec.SEMICOLON] + Codec.PasswordPart(c)
  }

  lemma EscapeAround(u: seq<byte>, m: seq<byte>, v: seq<byte>)
    requires forall x :: x in m ==> !Codec.NeedsEscape(x)
    ensures Codec.Escape(u + m + v) == Codec.Escape(u) + m + Codec.Escape(v)
  {
    Codec.EscapeConcat(u + m, v);
    Codec.EscapeConcat(u, m);
    Codec.PlainEscape(m);
  }

  lemma PayloadAround(c: Codec.Creds, d: Codec.Creds, u: seq<byte>, m: seq<byte>, v: seq<byte>)
    requires d == c.(ssid := u + m + v)
    requires forall x :: x in m ==> !Codec.NeedsEscape(x)
    ensures Codec.Build(d) == Before(c, u) + m + Behind(c, v)
  {
    Codec.BuildSplits(d);
    EscapeAround(u, m, v);
    SamePieces(c, d);
    Around(Codec.BeforeSsid(c), Codec.Key(Codec.KEY_S), Codec.Escape(u), m, Codec.Escape(v), Codec.PasswordPart(c));
  }

  lemma SamePieces(c: Codec.Creds, d: Codec.Creds)
    requires d == c.(ssid := d.ssid)
    ensures Codec.PasswordPart(d) == Codec.PasswordPart(c) && Codec.BeforeSsid(d) == Codec.BeforeSsid(c)
  {}

  lemma Around(p: seq<byte>, k: seq<byte>, u: seq<byte>, m: seq<byte>, v: seq<byte>, rest: seq<byte>)
    ensures p + (k + Codec.Field(u + m + v, rest)) == (p + k + u) + m + (v + [Codec.SEMICOLON] + rest)
  {}

  /** The true payload and the mixture. */
  lemma {:induction false} TwoTexts(c: Codec.Creds, u: seq<byte>, a: byte, b: byte, z: byte, v: seq<byte>, d: Codec.Creds,
                                    payload: seq<byte>, mixture: seq<byte>)
    requires c.ssid == u + [a, b, z] + v && Confusable(a, b, z) && d == Mistaken(c, u, a, b, v)
    requires !Codec.NeedsEscape(a) && !Codec.NeedsEscape(b) && !Codec.NeedsEscape(z)
    requires payload == Codec.Build(c) && mixture == Codec.Build(d)
    ensures payload == Before(c, u) + [a, b, z] + Behind(c, v) && mixture == Before(c, u) + [a, a, b] + Behind(c, v)
    ensures Crc8(mixture) == Crc8(payload)
  {
    PayloadAround(c, c, u, [a, b, z], v);
    PayloadAround(c, d, u, [a, a, b], v);
    MixtureChecks(Before(c, u), a, b, z, Behind(c, v), mixture, payload);
  }

  /** Loss alone can deliver wrong credentials, for every network whose name contains three confusable octets.
      A send is cut off after the first of them; of the next send of the same credentials, within 30 s, the
      START, the octets before them and the last of them are lost.  The mixture has the announced length and
      the checksum of the true payload, is delivered, and parses to a different name. */
  lemma {:induction false} WrongNetwork(c: Codec.Creds, u: seq<byte>, a: byte, b: byte, z: byte, v: seq<byte>,
                                        payload: seq<byte>, crc: byte, d: Codec.Creds, pre: seq<byte>)
    returns (first: seq<Event>, second: seq<Event>)
    requires Codec.ValidCreds(c) && c.ssid == u + [a, b, z] + v && Confusable(a, b, z)
    requires !Codec.NeedsEscape(a) && !Codec.NeedsEscape(b) && !Codec.NeedsEscape(z)
    requires payload == Codec.Build(c) && crc == Crc8(payload) && d == Mistaken(c, u, a, b, v) && pre == Before(c, u)
    ensures |payload| <= 255 && pre + [a, b, z] <= payload
    ensures Ours(first) == PassWith(payload, crc, 0)[..|pre| + 2] && Thinned(PassWith(payload, crc, 0), Ours(second))
    ensures NoTimeout(Idle, first + second) && Deliveries(Idle, first + second) == [Codec.Build(d)]
    ensures Codec.Parse(Codec.Build(d)) == Some(d) && d != c
  {
    Codec.BuildSize(c);
    var post, mixture := Behind(c, v), Codec.Build(d);
    TwoTexts(c, u, a, b, z, v, d, payload, mixture);
    MistakenIsValid(c, u, a, b, z, v);
    first, second := MixedRun(pre, a, b, z, post, payload, crc, mixture);
  }

  lemma MistakenIsValid(c: Codec.Creds, u: seq<byte>, a: byte, b: byte, z: byte, v: seq<byte>)
    requires Codec.ValidCreds(c) && c.ssid == u + [a, b, z] + v && Confusable(a, b, z)
    ensures Codec.Parse(Codec.Build(Mistaken(c, u, a, b, v))) == Some(Mistaken(c, u, a, b, v))
    ensures Mistaken(c, u, a, b, v) != c
  {
    assert a in c.ssid && b in c.ssid;
    assert forall x :: x in u ==> x in c.ssid;
    assert forall x :: x in v ==> x in c.ssid;
    Codec.RoundTrip(Mistaken(c, u, a, b, v));
    XorByteSelf(a);
    assert c.ssid[|u| + 1] == b && Mistaken(c, u, a, b, v).ssid[|u| + 1] == a;
  }

  /** The run. */
  lemma {:induction false} MixedRun(pre: seq<byte>, a: byte, b: byte, z: byte, post: seq<byte>, payload: seq<byte>, crc: byte,
                                    mixture: seq<byte>)
    returns (first: seq<Event>, second: seq<Event>)
    requires payload == pre + [a, b, z] + post && |payload| <= 255
    requires mixture == pre + [a, a, b] + post && crc == Crc8(mixture)
    ensures Ours(first) == PassWith(payload, crc, 0)[..|pre| + 2] && Thinned(PassWith(payload, crc, 0), Ours(second))
    ensures NoTimeout(Idle, first + second) && Deliveries(Idle, first + second) == [mixture]
  {
    first, second := MixedFrames(pre, a, b, z, post, payload, crc);
    var x, y := pre + [a], [a, b] + post;
    TwoParts(pre, a, b, post, x, y);
    Mixes(first, second, |payload|, x, y, crc, mixture);
  }

  lemma TwoParts(pre: seq<byte>, a: byte, b: byte, post: seq<byte>, x: seq<byte>, y: seq<byte>)
    requires x == pre + [a] && y == [a, b] + post
    ensures pre + [a, a, b] + post == x + y && |x| + |y| == |pre| + 3 + |post|
  {}

  lemma {:induction false} MixedFrames(pre: seq<byte>, a: byte, b: byte, z: byte, post: seq<byte>, payload: seq<byte>, crc: byte)
    returns (first: seq<Event>, second: seq<Event>)
    requires payload == pre + [a, b, z] + post && |payload| <= 255
    ensures Ours(first) == PassWith(payload, crc, 0)[..|pre| + 2]
    ensures Ours(first) == [Frame(Address(Start, 0), |payload|)] + RestOf(pre + [a], 0, crc, false)
    ensures Ours(second) == RestOf([a, b] + post, 0, crc, true) && Thinned(PassWith(payload, crc, 0), Ours(second))
    ensures NoTimeout(Idle, first + second)
  {
    FirstFrames(pre, a, b, z, post, payload, crc);
    var fs, gs := PassWith(payload, crc, 0)[..|pre| + 2], RestOf([a, b] + post, 0, crc, true);
    OnLine(fs, payload, crc);
    OnLineRest([a, b] + post, crc);
    first, second := AtOnce(fs, 0), AtOnce(gs, 0);
    LeftOver(pre, a, b, z, post, crc);
    ShortSpanNoTimeout(Idle, first + second, 0);
  }

  lemma FirstFrames(pre: seq<byte>, a: byte, b: byte, z: byte, post: seq<byte>, payload: seq<byte>, crc: byte)
    requires payload == pre + [a, b, z] + post && |payload| <= 255
    ensures PassWith(payload, crc, 0)[..|pre| + 2] == [Frame(Address(Start, 0), |payload|)] + RestOf(pre + [a], 0, crc, false)
  {}

  /** An unfinished pass and the end of another: together they are as long as announced and have the checksum. */
  lemma {:induction false} Mixes(first: seq<Event>, second: seq<Event>, n: byte, x: seq<byte>, y: seq<byte>, crc: byte,
                                 mixture: seq<byte>)
    requires 1 <= n && |x| + |y| == n && |x| < n && mixture == x + y && crc == Crc8(mixture)
    requires Ours(first) == [Frame(Address(Start, 0), n)] + RestOf(x, 0, crc, false) && Ours(second) == RestOf(y, 0, crc, true)
    requires NoTimeout(Idle, first + second)
    ensures Deliveries(Idle, first + second) == [mixture]
  {
    NoTimeoutSplit(Idle, first, second);
    WithStart(Idle, first, n, x, 0, crc, false);
    RunWellFormed(Idle, first);
    WithoutStart(Run(Idle, first), second, y, 0, crc, true);
    DeliveriesConcat(Idle, first, second);
  }

  lemma {:induction false} OnLine(fs: seq<Frame>, payload: seq<byte>, crc: byte)
    requires |payload| <= 255 && fs <= PassWith(payload, crc, 0)
    ensures Ours(AtOnce(fs, 0)) == fs
  {
    PassNotForeign(payload, crc, 0);
    assert forall f :: f in fs ==> f in PassWith(payload, crc, 0);
    OursAtOnce(fs, 0);
  }

  lemma {:induction false} OnLineRest(x: seq<byte>, crc: byte)
    requires |x| <= 255
    ensures Ours(AtOnce(RestOf(x, 0, crc, true), 0)) == RestOf(x, 0, crc, true)
  {
    var fs := PassWith(x, crc, 0);
    PassNotForeign(x, crc, 0);
    assert fs[1..] == RestOf(x, 0, crc, true);
    assert forall f :: f in fs[1..] ==> f in fs;
    OursAtOnce(fs[1..], 0);
  }

  lemma {:induction false} ThinnedAll(fs: seq<Frame>)
    ensures Thinned(fs, fs)
  {
    if fs != [] {
      ThinnedAll(fs[1..]);
    }
  }

  /** Frames in front can be lost. */
  lemma {:induction false} ThinnedFront(gone: seq<Frame>, fs: seq<Frame>, left: seq<Frame>)
    requires Thinned(fs, left)
    ensures Thinned(gone + fs, left)
    decreases |gone|
  {
    if gone == [] {
      assert gone + fs == fs;
    } else {
      assert (gone + fs)[0] == gone[0] && (gone + fs)[1..] == gone[1..] + fs;
      ThinnedFront(gone[1..], fs, left);
    }
  }

  lemma {:induction false} ThinnedSame(f: Frame, fs: seq<Frame>, left: seq<Frame>)
    requires Thinned(fs, left)
    ensures Thinned([f] + fs, [f] + left)
  {
    assert ([f] + fs)[1..] == fs && ([f] + left)[1..] == left;
  }

  lemma {:induction false} LeftOver(pre: seq<byte>, a: byte, b: byte, z: byte, post: seq<byte>, crc: byte)
    requires |pre| + 3 + |post| <= 255
    ensures Thinned(PassWith(pre + [a, b, z] + post, crc, 0), RestOf([a, b] + post, 0, crc, true))
  {
    var d, tail := Address(Data, 0), RestOf(post, 0, crc, true);
    var fa, fb, fz := Frame(d, a), Frame(d, b), Frame(d, z);
    ThinnedAll(tail);
    ThinnedFront([fz], tail, tail);
    ThinnedSame(fb, [fz] + tail, tail);
    ThinnedSame(fa, [fb] + ([fz] + tail), [fb] + tail);
    var front := [Frame(Address(Start, 0), |pre| + 3 + |post|)] + DataFrames(pre, 0);
    ThinnedFront(front, [fa] + ([fb] + ([fz] + tail)), [fa] + ([fb] + tail));
    LeftOverFrames(pre, a, b, z, post, crc);
  }

  lemma LeftOverFrames(pre: seq<byte>, a: byte, b: byte, z: byte, post: seq<byte>, crc: byte)
    requires |pre| + 3 + |post| <= 255
    ensures var d, tail := Address(Data, 0), RestOf(post, 0, crc, true);
            var front := [Frame(Address(Start, 0), |pre| + 3 + |post|)] + DataFrames(pre, 0);
            && PassWith(pre + [a, b, z] + post, crc, 0) == front + ([Frame(d, a)] + ([Frame(d, b)] + ([Frame(d, z)] + tail)))
            && RestOf([a, b] + post, 0, crc, true) == [Frame(d, a)] + ([Frame(d, b)] + tail)
  {}

  /** One such name: cbe, which is delivered as ccb. */
  lemma ConfusableExample()
    ensures Confusable(0x63, 0x62, 0x65) && [0x63, 0x62, 0x65] == Ascii("cbe")
  {}
}
