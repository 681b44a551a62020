/** The record loop on the handheld, where sizes have 32 bits.  A record can announce a length that wraps the
    sums of the loop.  What the loop then does, exactly when that happens, and that it reads every other
    message as `Nfc` says. */
module NfcWidth {
  import opened Bytes
  import opened Codec
  import opened Nfc

  const SIZE_MODULUS := 0x1_0000_0000

  /** A sum as a size holds it. */
  function Size(n: nat): (s: nat)
    ensures s < SIZE_MODULUS && (n < SIZE_MODULUS ==> s == n)
  {
    n % SIZE_MODULUS
  }

  /** A message is the value of a TLV, so its length has 16 bits. */
  const MESSAGE_LIMIT := 0x1_0000

  // ---------------------------------------------------------------- the two sums

  /** The record length with which the record at the front of d, the rest of a message of len octets, passes
      the loop's check; None if it does not. */
  function Passed(d: seq<byte>, len: nat): Option<nat>
    requires |d| <= len
  {
    var x := HeaderOf(d);
    if x.None? then None else
      var total := Size(x.value.Total());
      if Size(len - |d| + total) > len then None else Some(total)
  }

  /** What the check is for: the record at the front fits. */
  function Fitting(d: seq<byte>): Option<nat> {
    var x := ExtentOf(d);
    if x.None? then None else Some(x.value.Total())
  }

  /** The lengths in the header add up to so much that the end of the record wraps back into the message. */
  predicate Wraps(d: seq<byte>, len: nat)
    requires |d| <= len
  {
    var x := HeaderOf(d);
    x.Some? && SIZE_MODULUS <= len - |d| + x.value.Total() <= SIZE_MODULUS + len
  }

  /** The check takes the record at the front exactly when it fits. */
  ghost predicate RightCheck(d: seq<byte>, len: nat)
    requires |d| <= len
  {
    Passed(d, len) == Fitting(d)
  }

  lemma SizeOfSum(pos: nat, total: nat)
    requires pos < MESSAGE_LIMIT && total < SIZE_MODULUS + 0x1000
    ensures Size(pos + Size(total)) == if pos + total < SIZE_MODULUS then pos + total else pos + total - SIZE_MODULUS
    ensures Size(total) == if total < SIZE_MODULUS then total else total - SIZE_MODULUS
  {}

  /** The check is right, for fitting records and for others, exactly when the record does not wrap. */
  lemma PassedExactlyWhen(d: seq<byte>, len: nat)
    requires |d| <= len < MESSAGE_LIMIT
    ensures RightCheck(d, len) <==> !Wraps(d, len)
  {
    var x := HeaderOf(d);
    if x.Some? {
      SizeOfSum(len - |d|, x.value.Total());
    }
  }

  /** The span of the payload as the record parser accepts it. */
  function PayloadSpan(rec: seq<byte>): Option<(nat, nat)> {
    var s := WifiSpan(rec);
    if s.None? || Size(s.value.0 + s.value.1) > |rec| then None else s
  }

  predicate PayloadWraps(rec: seq<byte>) {
    var s := WifiSpan(rec);
    s.Some? && SIZE_MODULUS <= s.value.0 + s.value.1 <= SIZE_MODULUS + |rec|
  }

  /** The payload that is accepted lies inside the record exactly when its end does not wrap. */
  lemma SpanExactlyWhen(rec: seq<byte>)
    requires |rec| < MESSAGE_LIMIT
    ensures var s := PayloadSpan(rec);
            && ((s.Some? ==> s.value.0 + s.value.1 <= |rec|) <==> !PayloadWraps(rec))
            && (!PayloadWraps(rec) ==>
                  RecordPayload(rec) == if s.None? then None else Some(rec[s.value.0..s.value.0 + s.value.1]))
  {
    var s := WifiSpan(rec);
    if s.Some? {
      SizeOfSum(s.value.0, s.value.1);
    }
  }

  /** On a record as the loop cuts it out, when it fits, the payload cannot wrap. */
  lemma FittingPayloadDoesNotWrap(data: seq<byte>)
    requires ExtentOf(data).Some? && |data| < MESSAGE_LIMIT
    ensures !PayloadWraps(data[..ExtentOf(data).value.Total()])
  {
    var rec := data[..ExtentOf(data).value.Total()];
    CutOutMeasures(data);
    if WifiSpan(rec).Some? {
      SpanOfExtent(rec);
    }
  }

  lemma SpanOfExtent(rec: seq<byte>)
    requires ExtentOf(rec).Some? && WifiSpan(rec).Some?
    ensures WifiSpan(rec).value.0 + WifiSpan(rec).value.1 == ExtentOf(rec).value.Total()
  {}

  // ---------------------------------------------------------------- one turn

  datatype Parsed = Answer(scan: Scan) | Beyond

  /** A record that says it goes on past the message for up to 2^32 octets, and whose type is read from there
      or is the Wi-Fi type: type or attributes are read beyond the message. */
  predicate ReadsOn(d: seq<byte>)
    requires HeaderOf(d).Some?
  {
    var h := HeaderOf(d).value.header;
    Tnf(d[0]) == TNF_MEDIA_TYPE && d[1] == |WIFI_TYPE| && (h + |WIFI_TYPE| <= |d| ==> d[h..h + |WIFI_TYPE|] == WIFI_TYPE)
  }

  /** The record parser on the record of n octets at the front of d, which is the rest of the message.  A
      payload that wraps is nearly 2^32 octets long, so its attributes are read beyond the message. */
  function ParseAt(d: seq<byte>, n: nat, c: Creds): Parsed
    requires HeaderOf(d).Some?
  {
    if n > |d| then
      if ReadsOn(d) then Beyond else Answer(Scan(false, c))
    else if PayloadWraps(d[..n]) then Beyond
    else Answer(ScanRecord(d[..n], c))
  }

  /** One turn of the loop stops it with an answer, sets the cursor, or reads outside of the message. */
  datatype Turn = Stop(scan: Scan) | Go(pos: nat, creds: Creds) | Fault

  /** With the cursor at pos, d being the rest of the message from there. */
  function TurnOn(d: seq<byte>, len: nat, c: Creds): (t: Turn)
    requires |d| <= len
    ensures t.Go? ==> t.pos <= len
  {
    if d == [] || Passed(d, len).None? then Stop(Scan(false, c)) else
      var n := Passed(d, len).value;
      var p := ParseAt(d, n, c);
      if p.Beyond? then Fault
      else if p.scan.ok || FlagME(d[0]) then Stop(p.scan)
      else Go(Size(len - |d| + n), p.scan.creds)
  }

  /** A turn whose record does not wrap is the natural one. */
  lemma {:induction false} SteadyTurn(d: seq<byte>, len: nat, c: Creds)
    requires |d| <= len < MESSAGE_LIMIT && !Wraps(d, len)
    ensures TurnOn(d, len, c) == match RecordFront(d, c)
                                 case Done(s) => Stop(s)
                                 case Skip(n, c') => Go(len - |d| + n, c')
  {
    PassedExactlyWhen(d, len);
    if ExtentOf(d).Some? {
      FittingPayloadDoesNotWrap(d);
    }
  }

  /** What a wrapping record passes the check with. */
  lemma WrappedLength(d: seq<byte>, len: nat)
    requires |d| <= len < MESSAGE_LIMIT && Wraps(d, len)
    ensures var total := HeaderOf(d).value.Total();
            && Passed(d, len) == Some(if total < SIZE_MODULUS then total else total - SIZE_MODULUS)
            && (if total < SIZE_MODULUS then total > |d| else total - SIZE_MODULUS <= |d|)
  {
    SizeOfSum(len - |d|, HeaderOf(d).value.Total());
  }

  /** A turn reads outside of the message exactly when its record wraps and, below 2^32, is of the Wi-Fi type
      as far as the message goes, or, above, has a payload that wraps as well. */
  lemma {:induction false} FaultsExactlyWhen(d: seq<byte>, len: nat, c: Creds)
    requires |d| <= len < MESSAGE_LIMIT
    ensures TurnOn(d, len, c).Fault? <==>
            && Wraps(d, len)
            && (var total := HeaderOf(d).value.Total();
                if total < SIZE_MODULUS then ReadsOn(d)
                else total - SIZE_MODULUS <= |d| && PayloadWraps(d[..total - SIZE_MODULUS]))
  {
    if Wraps(d, len) {
      WrappedLength(d, len);
    } else {
      SteadyTurn(d, len, c);
    }
  }

  /** A turn leaves the cursor where it is exactly when the lengths add up to 2^32 and the record does not
      end the message; then it leaves everything as it is. */
  lemma {:induction false} StallsExactlyWhen(d: seq<byte>, len: nat, c: Creds)
    requires |d| <= len < MESSAGE_LIMIT
    ensures var t := TurnOn(d, len, c);
            && (t == Go(len - |d|, c) <==> HeaderOf(d).Some? && HeaderOf(d).value.Total() == SIZE_MODULUS && !FlagME(d[0]))
            && (t.Go? && t.pos == len - |d| ==> t.creds == c)
  {
    if Wraps(d, len) {
      WrappedLength(d, len);
      if HeaderOf(d).value.Total() == SIZE_MODULUS {
        assert d[..0] == [];
      }
    } else {
      SteadyTurn(d, len, c);
    }
  }

  // ---------------------------------------------------------------- runs

  /** n turns over a message, or as many as there are. */
  function Turns(data: seq<byte>, pos: nat, c: Creds, n: nat): Turn
    requires pos <= |data|
    decreases n
  {
    if n == 0 then Go(pos, c) else
      match TurnOn(data[pos..], |data|, c)
      case Go(p, c') => Turns(data, p, c', n - 1)
      case t => t
  }

  /** A loop that stalls never stops. */
  lemma {:induction false} StalledForever(data: seq<byte>, pos: nat, c: Creds, n: nat)
    requires pos <= |data| && TurnOn(data[pos..], |data|, c) == Go(pos, c)
    ensures Turns(data, pos, c, n) == Go(pos, c)
  {
    if n != 0 {
      StalledForever(data, pos, c, n - 1);
    }
  }

  /** The natural reading of d, the rest of a message of len octets, comes to a record that wraps. */
  predicate Astray(d: seq<byte>, len: nat)
    requires |d| <= len
    decreases |d|
  {
    || Wraps(d, len)
    || match RecordFront(d, NO_CREDS)
       case Done(_) => false
       case Skip(n, _) => Astray(d[n..], len)
  }

  /** How far a turn goes on: so much of d is done with. */
  function Advance(d: seq<byte>, len: nat, t: Turn): int
    requires |d| <= len
  {
    if t.Go? then t.pos - (len - |d|) else 0
  }

  /** From here on the loop stops within n turns, reads nothing outside of the message, goes forward only, and
      takes a record exactly when it fits; s is its answer. */
  ghost predicate Follows(d: seq<byte>, len: nat, c: Creds, n: nat, s: Scan)
    requires |d| <= len
    decreases n
  {
    n > 0 && RightCheck(d, len) && GoesOn(d, len, TurnOn(d, len, c), n, s)
  }

  ghost predicate GoesOn(d: seq<byte>, len: nat, t: Turn, n: nat, s: Scan)
    requires |d| <= len && n > 0
    decreases n, 0
  {
    match t
    case Stop(s') => s == s'
    case Go(_, c) => 0 < Advance(d, len, t) <= |d| && Follows(d[Advance(d, len, t)..], len, c, n - 1, s)
    case Fault => false
  }

  /** Whether a record is taken does not depend on what is in the struct. */
  lemma {:induction false} FrontIgnoresCreds(d: seq<byte>, c: Creds)
    ensures match RecordFront(d, c)
            case Done(s) => RecordFront(d, NO_CREDS).Done? && RecordFront(d, NO_CREDS).scan.ok == s.ok
            case Skip(n, _) => RecordFront(d, NO_CREDS).Skip? && RecordFront(d, NO_CREDS).n == n
  {}

  /** The natural turn f and the turn t of the loop, at a record that does not wrap. */
  ghost predicate Matching(d: seq<byte>, len: nat, t: Turn, f: Front)
    requires |d| <= len
  {
    match f
    case Done(s) => t == Stop(s)
    case Skip(n, c) => 0 < n <= |d| && t == Go(len - |d| + n, c) && Advance(d, len, t) == n
  }

  lemma {:induction false} TurnsMatch(d: seq<byte>, len: nat, c: Creds, t: Turn, f: Front)
    requires |d| <= len < MESSAGE_LIMIT && !Wraps(d, len) && t == TurnOn(d, len, c) && f == RecordFront(d, c)
    ensures Matching(d, len, t, f)
  {
    SteadyTurn(d, len, c);
  }

  /** What is left to do after it ... */
  lemma {:induction false} AstrayAfter(d: seq<byte>, len: nat, c: Creds, f: Front)
    requires |d| <= len && !Wraps(d, len) && f == RecordFront(d, c)
    ensures f.Done? ==> !Astray(d, len)
    ensures f.Skip? ==> (Astray(d[f.n..], len) <==> Astray(d, len))
  {
    FrontIgnoresCreds(d, c);
  }

  /** ... and to read. */
  lemma {:induction false} ScanAfter(d: seq<byte>, c: Creds, f: Front, s: Scan)
    requires f == RecordFront(d, c) && s == ScanMessage(d, c)
    ensures f.Done? ==> f.scan == s
    ensures f.Skip? ==> ScanMessage(d[f.n..], f.creds) == s
  {}

  /** Everything about one turn of a loop that comes to no wrapping record. */
  lemma {:induction false} OneTurn(d: seq<byte>, len: nat, c: Creds, s: Scan, t: Turn, f: Front)
    requires |d| <= len < MESSAGE_LIMIT && !Astray(d, len) && s == ScanMessage(d, c)
    requires t == TurnOn(d, len, c) && f == RecordFront(d, c)
    ensures RightCheck(d, len) && Matching(d, len, t, f)
    ensures f.Done? ==> f.scan == s
    ensures f.Skip? ==> !Astray(d[f.n..], len) && ScanMessage(d[f.n..], f.creds) == s
  {
    PassedExactlyWhen(d, len);
    TurnsMatch(d, len, c, t, f);
    AstrayAfter(d, len, c, f);
    ScanAfter(d, c, f, s);
  }

  lemma {:induction false} FollowsFrom(d: seq<byte>, len: nat, c: Creds, n: nat, s: Scan, t: Turn)
    requires |d| <= len && n > 0 && RightCheck(d, len) && t == TurnOn(d, len, c) && GoesOn(d, len, t, n, s)
    ensures Follows(d, len, c, n, s)
  {}

  lemma {:induction false} GoesOnFromFront(d: seq<byte>, len: nat, t: Turn, f: Front, n: nat, s: Scan)
    requires |d| <= len && n > 0 && Matching(d, len, t, f)
    requires match f
             case Done(s') => s == s'
             case Skip(k, c) => Follows(d[k..], len, c, n - 1, s)
    ensures GoesOn(d, len, t, n, s)
  {}

  lemma {:induction false} OneTurnFollows(d: seq<byte>, len: nat, c: Creds, n: nat, s: Scan) returns (f: Front)
    requires |d| <= len < MESSAGE_LIMIT && !Astray(d, len) && n > 0 && s == ScanMessage(d, c)
    ensures f.Done? ==> Follows(d, len, c, n, s)
    ensures f.Skip? ==>
              && 0 < f.n <= |d| && !Astray(d[f.n..], len) && ScanMessage(d[f.n..], f.creds) == s
              && (Follows(d[f.n..], len, f.creds, n - 1, s) ==> Follows(d, len, c, n, s))
  {
    f := RecordFront(d, c);
    var t := TurnOn(d, len, c);
    OneTurn(d, len, c, s, t, f);
    if f.Done? || Follows(d[f.n..], len, f.creds, n - 1, s) {
      GoesOnFromFront(d, len, t, f, n, s);
      FollowsFrom(d, len, c, n, s, t);
    }
  }

  /** A loop that comes to no wrapping record follows the message, in at most as many turns as there are octets
      and one, and its answer is the natural reading. */
  lemma {:induction false} SteadyFollows(d: seq<byte>, len: nat, c: Creds, n: nat, s: Scan)
    requires |d| <= len < MESSAGE_LIMIT && !Astray(d, len) && n > |d| && s == ScanMessage(d, c)
    ensures Follows(d, len, c, n, s)
    decreases |d|
  {
    var f := OneTurnFollows(d, len, c, n, s);
    if f.Skip? {
      SteadyFollows(d[f.n..], len, f.creds, n - 1, s);
    }
  }

  lemma {:induction false} FollowsToFront(d: seq<byte>, len: nat, t: Turn, f: Front, n: nat, s: Scan)
    requires |d| <= len && n > 0 && Matching(d, len, t, f) && GoesOn(d, len, t, n, s)
    ensures f.Skip? ==> Follows(d[f.n..], len, f.creds, n - 1, s)
  {}

  /** And only such a loop follows the message. */
  lemma {:induction false} FollowingIsSteady(d: seq<byte>, len: nat, c: Creds, n: nat, s: Scan)
    requires |d| <= len < MESSAGE_LIMIT && Follows(d, len, c, n, s)
    ensures !Astray(d, len)
    decreases n
  {
    var t, f := TurnOn(d, len, c), RecordFront(d, c);
    assert RightCheck(d, len) && GoesOn(d, len, t, n, s);
    PassedExactlyWhen(d, len);
    TurnsMatch(d, len, c, t, f);
    AstrayAfter(d, len, c, f);
    FollowsToFront(d, len, t, f, n, s);
    if f.Skip? {
      FollowingIsSteady(d[f.n..], len, f.creds, n - 1, s);
    }
  }

  /** Following is what the loop does. */
  lemma {:induction false} FollowingTurns(data: seq<byte>, pos: nat, c: Creds, n: nat, s: Scan, d: seq<byte>)
    requires pos <= |data| && d == data[pos..] && Follows(d, |data|, c, n, s)
    ensures Turns(data, pos, c, n) == Stop(s)
    decreases n
  {
    var t := TurnOn(d, |data|, c);
    assert GoesOn(d, |data|, t, n, s);
    if t.Go? {
      assert d[t.pos - pos..] == data[t.pos..];
      FollowingTurns(data, t.pos, t.creds, n - 1, s, d[t.pos - pos..]);
    }
  }

  /** Over whole messages: the loop ends, stays inside, and takes exactly the records that fit, if and only if
      the natural reading comes to no record that wraps; then its answer is the natural reading. */
  ghost predicate FollowsMessage(data: seq<byte>, c: Creds) {
    exists n: nat, s: Scan :: Follows(data, |data|, c, n, s)
  }

  lemma {:induction false} FollowsExactlyWhen(data: seq<byte>, c: Creds)
    requires |data| < MESSAGE_LIMIT
    ensures FollowsMessage(data, c) <==> !Astray(data, |data|)
    ensures !Astray(data, |data|) ==> Turns(data, 0, c, |data| + 1) == Stop(ScanMessage(data, c))
  {
    assert data[0..] == data;
    if !Astray(data, |data|) {
      SteadyFollows(data, |data|, c, |data| + 1, ScanMessage(data, c));
      FollowingTurns(data, 0, c, |data| + 1, ScanMessage(data, c), data);
    }
    if FollowsMessage(data, c) {
      var n: nat, s: Scan :| Follows(data, |data|, c, n, s);
      FollowingIsSteady(data, |data|, c, n, s);
    }
  }

  // ---------------------------------------------------------------- areas and tags

  /** The natural reading of a data area comes to a message in which it comes to a record that wraps. */
  predicate AreaAstray(area: seq<byte>)
    decreases |area|
  {
    || MessageAstray(area)
    || match TlvFront(area, NO_CREDS)
       case Done(_) => false
       case Skip(n, _) => AreaAstray(area[n..])
  }

  /** The block at the front is such a message. */
  predicate MessageAstray(area: seq<byte>) {
    && area != [] && area[0] == TLV_NDEF && TlvExtent(area).Some?
    && var (start, len) := TlvExtent(area).value;
       Astray(area[start..start + len], len)
  }

  lemma {:induction false} AreaAstrayAfter(area: seq<byte>, c: Creds, f: Front)
    requires f == TlvFront(area, c)
    ensures !AreaAstray(area) ==> !MessageAstray(area)
    ensures f.Skip? && !AreaAstray(area) ==> !AreaAstray(area[f.n..])
    ensures f.Done? && !MessageAstray(area) ==> !AreaAstray(area)
    ensures f.Skip? && !MessageAstray(area) && !AreaAstray(area[f.n..]) ==> !AreaAstray(area)
  {
    TlvFrontIgnoresCreds(area, c);
  }

  /** The records that are tried do not depend on what is in the struct. */
  lemma {:induction false} ScanIgnoresCreds(data: seq<byte>, c: Creds, c': Creds)
    ensures ScanMessage(data, c).ok == ScanMessage(data, c').ok
    decreases |data|
  {
    FrontIgnoresCreds(data, c);
    FrontIgnoresCreds(data, c');
    match RecordFront(data, c)
    case Done(_) =>
    case Skip(n, d) => ScanIgnoresCreds(data[n..], d, RecordFront(data, c').creds);
  }

  lemma {:induction false} TlvFrontIgnoresCreds(area: seq<byte>, c: Creds)
    ensures match TlvFront(area, c)
            case Done(_) => TlvFront(area, NO_CREDS).Done?
            case Skip(n, _) => TlvFront(area, NO_CREDS).Skip? && TlvFront(area, NO_CREDS).n == n
  {
    if area != [] && area[0] == TLV_NDEF && TlvExtent(area).Some? {
      var (start, len) := TlvExtent(area).value;
      ScanIgnoresCreds(area[start..start + len], c, NO_CREDS);
    }
  }

  predicate TagAstray(pages: seq<byte>, pagesRead: nat)
    requires pagesRead * 4 <= |pages|
  {
    pagesRead >= 5 && pages[12] == CC_MAGIC && AreaAstray(pages[16..pagesRead * 4])
  }

  // ---------------------------------------------------------------- two messages

  const STALLING: seq<byte> := [0x00, 0x00, 0xFF, 0xFF, 0xFF, 0xFA]

  /** On this message the loop never ends. */
  lemma StallingNeverStops(c: Creds, n: nat)
    ensures Astray(STALLING, |STALLING|) && Turns(STALLING, 0, c, n) == Go(0, c)
  {
    assert STALLING[0..] == STALLING;
    StallsExactlyWhen(STALLING, |STALLING|, c);
    StalledForever(STALLING, 0, c, n);
  }

  /** A Wi-Fi record with an ID of 255 octets and a payload of 2^32 - 1, cut off after 284 octets. */
  function Overlong(): (s: seq<byte>)
    ensures |s| == 284
  {
    [0x0A, 23, 0xFF, 0xFF, 0xFF, 0xFF, 255] + WIFI_TYPE + Repeat(0, 254)
  }

  /** On this message the first turn reads outside of it. */
  lemma OverlongFaults(c: Creds)
    ensures Astray(Overlong(), |Overlong()|) && TurnOn(Overlong(), |Overlong()|, c) == Fault
  {
    var d := Overlong();
    assert d[..284] == d && d[7..7 + 23] == WIFI_TYPE;
    assert HeaderOf(d) == Some(Extent(7, 23, 255, 0xFFFF_FFFF));
    assert WifiSpan(d) == Some((285, 0xFFFF_FFFF));
    FaultsExactlyWhen(d, 284, c);
  }
}
