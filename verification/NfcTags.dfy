/** What is found on a tag: the first Wi-Fi record with an SSID, and in it the last accepted attribute of
    each kind.  Proved of every tag whatsoever, and from it the round trips. */
module NfcTags {
  import opened Bytes
  import opened Codec
  import opened Nfc
  import opened NfcWidth
  import opened CodecBuffers
  import opened NfcBuffers
  import opened NfcEncoding

  // ---------------------------------------------------------------- what a list of leaves says

  /** One past the last leaf that is accepted; 0 if there is none. */
  function LastIndex(ls: seq<Leaf>, accepts: Leaf -> bool): (k: nat)
    ensures k <= |ls|
    ensures k > 0 ==> accepts(ls[k - 1])
    ensures forall j :: k <= j < |ls| ==> !accepts(ls[j])
  {
    if ls == [] then 0
    else if accepts(ls[|ls| - 1]) then |ls|
    else LastIndex(ls[..|ls| - 1], accepts)
  }

  /** The last accepted SSID, authentication type and key; what is missing is as in cleared credentials. */
  function CredsIn(ls: seq<Leaf>): Creds {
    var s, a, k := LastIndex(ls, AcceptsSsid), LastIndex(ls, AcceptsAuth), LastIndex(ls, AcceptsKey);
    Creds(if s == 0 then [] else CStr(ls[s - 1].value),
          if k == 0 then [] else CStr(ls[k - 1].value),
          if a == 0 then SEC_OPEN else SecurityOfAuth(Word16(ls[a - 1].value[0], ls[a - 1].value[1])),
          false)
  }

  ghost predicate HasSsid(ls: seq<Leaf>) {
    exists l :: l in ls && AcceptsSsid(l)
  }

  /** Attributes may come in any order, more than once, and with values that are not accepted: the last
      accepted one of each kind is what the fold keeps. */
  lemma FoldKeepsLast(ls: seq<Leaf>)
    ensures Fold(Found(NO_CREDS, false), ls) == Found(CredsIn(ls), HasSsid(ls))
  {
    FoldKeepsSsid(ls);
    FoldKeepsAuth(ls);
    FoldKeepsKey(ls);
    FoundExactlyWhen(Found(NO_CREDS, false), ls);
    FoldStaysBounded(Found(NO_CREDS, false), ls);
  }

  lemma FoldKeepsSsid(ls: seq<Leaf>)
    ensures Fold(Found(NO_CREDS, false), ls).creds.ssid == CredsIn(ls).ssid
  {
    LastSsidWins(Found(NO_CREDS, false), ls, LastIndex(ls, AcceptsSsid));
  }

  lemma FoldKeepsAuth(ls: seq<Leaf>)
    ensures Fold(Found(NO_CREDS, false), ls).creds.security == CredsIn(ls).security
  {
    LastAuthWins(Found(NO_CREDS, false), ls, LastIndex(ls, AcceptsAuth));
  }

  lemma FoldKeepsKey(ls: seq<Leaf>)
    ensures Fold(Found(NO_CREDS, false), ls).creds.password == CredsIn(ls).password
  {
    LastKeyWins(Found(NO_CREDS, false), ls, LastIndex(ls, AcceptsKey));
  }

  /** What any reading leaves in the struct when it succeeds. */
  ghost predicate Bounded(c: Creds) {
    && CStringCreds(c) && |c.ssid| <= SSID_MAX && |c.password| <= PASS_MAX
    && c.security < SEC_SAE && !c.hidden
  }

  lemma {:induction false} FoldStaysBounded(f: Found, ls: seq<Leaf>)
    requires Bounded(f.creds)
    ensures Bounded(Fold(f, ls).creds)
    decreases |ls|
  {
    if ls != [] {
      FoldStaysBounded(Apply(f, ls[0]), ls[1..]);
    }
  }

  lemma LastIndexIs(ls: seq<Leaf>, accepts: Leaf -> bool, k: nat)
    requires k <= |ls| && (k > 0 ==> accepts(ls[k - 1]))
    requires forall j :: k <= j < |ls| ==> !accepts(ls[j])
    ensures LastIndex(ls, accepts) == k
  {}

  // ---------------------------------------------------------------- messages

  /** The leaves of a record's payload. */
  function LeavesIn(r: Record): seq<Leaf> {
    Leaves(AttrsOf(r.payload))
  }

  /** A record that the reader takes: a Wi-Fi record with an acceptable SSID. */
  ghost predicate Answers(r: Record) {
    IsWifi(r) && HasSsid(LeavesIn(r))
  }

  /** The records of a message, up to the one that ends it or the first that does not fit. */
  function RecordsOf(data: seq<byte>): seq<Record>
    decreases |data|
  {
    if ExtentOf(data).None? then [] else
      [RecordOf(data)]
      + if FlagME(data[0]) then [] else RecordsOf(data[ExtentOf(data).value.Total()..])
  }

  function EncodeRecords(rs: seq<Record>): seq<byte>
    requires forall r :: r in rs ==> EncodableRecord(r)
  {
    if rs == [] then [] else EncodeRecord(rs[0]) + EncodeRecords(rs[1..])
  }

  lemma FirstRecord(r: Record, rest: seq<byte>)
    requires EncodableRecord(r)
    ensures RecordsOf(EncodeRecord(r) + rest) == [r] + if r.me then [] else RecordsOf(rest)
  {
    var d := EncodeRecord(r) + rest;
    RecordUnique(r, rest);
    MeasuresRecord(r, rest);
    FlagsRead(r);
    assert d[0] == Flags(r) && d[|EncodeRecord(r)|..] == rest;
  }

  lemma Apart<T>(a: seq<T>, b: seq<T>, c: seq<T>)
    ensures (a + b) + c == a + (b + c)
  {}

  /** Reading back a message that was laid out record by record. */
  lemma {:induction false} ReadsRecords(rs: seq<Record>, rest: seq<byte>)
    requires forall r :: r in rs ==> EncodableRecord(r) && !r.me
    ensures RecordsOf(EncodeRecords(rs) + rest) == rs + RecordsOf(rest)
    decreases |rs|
  {
    if rs == [] {
      assert EncodeRecords(rs) + rest == rest;
    } else {
      var r, more := rs[0], rs[1..];
      assert rs == [r] + more && EncodeRecords(rs) == EncodeRecord(r) + EncodeRecords(more);
      Apart(EncodeRecord(r), EncodeRecords(more), rest);
      FirstRecord(r, EncodeRecords(more) + rest);
      ReadsRecords(more, rest);
      Apart([r], more, RecordsOf(rest));
    }
  }

  /** What is left of a message after its records. */
  function RestOf(data: seq<byte>): (rest: seq<byte>)
    ensures |rest| <= |data|
    decreases |data|
  {
    if ExtentOf(data).None? then data else
      var more := data[ExtentOf(data).value.Total()..];
      if FlagME(data[0]) then more else RestOf(more)
  }

  /** The last record ends the message. */
  predicate Ended(rs: seq<Record>) {
    rs != [] && rs[|rs| - 1].me
  }

  lemma {:induction false} EncodesOneMore(data: seq<byte>, rs: seq<Record>, rest: seq<byte>)
    requires ExtentOf(data).Some? && forall r :: r in rs ==> EncodableRecord(r)
    requires data[ExtentOf(data).value.Total()..] == EncodeRecords(rs) + rest
    ensures EncodableRecord(RecordOf(data)) && data == EncodeRecords([RecordOf(data)] + rs) + rest
  {
    var n, r := ExtentOf(data).value.Total(), RecordOf(data);
    EveryRecordEncodes(data);
    assert ([r] + rs)[1..] == rs;
    Apart(EncodeRecord(r), EncodeRecords(rs), rest);
    assert data == data[..n] + data[n..];
  }

  /** Every message is its records, one after the other, and the rest. */
  lemma {:induction false} EveryMessageEncodes(data: seq<byte>)
    ensures forall r :: r in RecordsOf(data) ==> EncodableRecord(r)
    ensures data == EncodeRecords(RecordsOf(data)) + RestOf(data)
    decreases |data|
  {
    if ExtentOf(data).Some? {
      var more := data[ExtentOf(data).value.Total()..];
      if FlagME(data[0]) {
        assert more == EncodeRecords([]) + more;
        EncodesOneMore(data, [], more);
      } else {
        EveryMessageEncodes(more);
        EncodesOneMore(data, RecordsOf(more), RestOf(more));
      }
    }
  }

  /** Only its last record can end a message, and if none does, what is left cannot be read. */
  lemma {:induction false} WhereMessageEnds(data: seq<byte>)
    ensures forall i :: 0 <= i < |RecordsOf(data)| - 1 ==> !RecordsOf(data)[i].me
    ensures Ended(RecordsOf(data)) || ExtentOf(RestOf(data)).None?
    decreases |data|
  {
    if ExtentOf(data).Some? && !FlagME(data[0]) {
      var more := RecordsOf(data[ExtentOf(data).value.Total()..]);
      assert RecordsOf(data) == [RecordOf(data)] + more;
      WhereMessageEnds(data[ExtentOf(data).value.Total()..]);
    }
  }

  /** The first record of a list that the reader takes. */
  ghost function FirstAnswer(rs: seq<Record>): (a: Option<Record>)
    ensures a.None? ==> forall r :: r in rs ==> !Answers(r)
    ensures a.Some? ==> Answers(a.value) && exists k :: 0 <= k < |rs| && rs[k] == a.value && forall j :: 0 <= j < k ==> !Answers(rs[j])
  {
    if rs == [] then None
    else if Answers(rs[0]) then Some(rs[0])
    else
      var a := FirstAnswer(rs[1..]);
      assert a.Some? ==> exists k :: 0 <= k < |rs| && rs[k] == a.value && forall j :: 0 <= j < k ==> !Answers(rs[j]) by {
        if a.Some? {
          var k :| 0 <= k < |rs[1..]| && rs[1..][k] == a.value && forall j :: 0 <= j < k ==> !Answers(rs[1..][j]);
          assert rs[k + 1] == a.value;
        }
      }
      a
  }

  lemma {:induction false} FirstAnswerConcat(a: seq<Record>, b: seq<Record>)
    ensures FirstAnswer(a + b) == if FirstAnswer(a).Some? then FirstAnswer(a) else FirstAnswer(b)
    decreases |a|
  {
    if a == [] {
      assert a + b == b;
    } else {
      assert (a + b)[0] == a[0] && (a + b)[1..] == a[1..] + b;
      FirstAnswerConcat(a[1..], b);
    }
  }

  /** What a scan reports when the reader has this record to report, or none. */
  ghost predicate Picks(s: Scan, a: Option<Record>) {
    && (s.ok <==> a.Some?)
    && (s.ok ==> s.creds == CredsIn(LeavesIn(a.value)))
  }

  /** One record, as the message loop cuts it out. */
  lemma ReadsRecord(data: seq<byte>, c: Creds)
    requires ExtentOf(data).Some?
    ensures var s := ScanRecord(data[..ExtentOf(data).value.Total()], c);
            (s.ok <==> Answers(RecordOf(data))) && (s.ok ==> s.creds == CredsIn(LeavesIn(RecordOf(data))))
  {
    var r := RecordOf(data);
    EveryRecordEncodes(data);
    FindsPayload(r);
    EveryPayloadEncodes(r.payload);
    FlattenEncode(AttrsOf(r.payload));
    FoldKeepsLast(LeavesIn(r));
  }

  lemma {:induction false} MessagePicks(data: seq<byte>, c: Creds)
    ensures Picks(ScanMessage(data, c), FirstAnswer(RecordsOf(data)))
    decreases |data|
  {
    if ExtentOf(data).Some? {
      ReadsRecord(data, c);
      FirstOfRecords(data);
      match RecordFront(data, c)
      case Done(_) =>
      case Skip(n, c') => MessagePicks(data[n..], c');
    }
  }

  /** On the handheld, where sizes have 32 bits, a message leads the reader astray exactly when no record on it
      is taken, none ends it, and the lengths in the header that comes next add up to a sum that wraps back
      into the message. */
  lemma {:induction false} AstrayExactlyWhen(d: seq<byte>, len: nat)
    requires |d| <= len < MESSAGE_LIMIT
    ensures Astray(d, len) <==>
            FirstAnswer(RecordsOf(d)).None? && !Ended(RecordsOf(d)) && Wraps(RestOf(d), len)
    decreases |d|
  {
    PassedExactlyWhen(d, len);
    if ExtentOf(d).Some? {
      FittingDoesNotWrap(d, len);
      ReadsRecord(d, NO_CREDS);
      FirstOfRecords(d);
      EndOfRecords(d);
      if !FlagME(d[0]) {
        AstrayExactlyWhen(d[ExtentOf(d).value.Total()..], len);
      }
    }
  }

  lemma FittingDoesNotWrap(d: seq<byte>, len: nat)
    requires |d| <= len < MESSAGE_LIMIT && ExtentOf(d).Some?
    ensures !Wraps(d, len)
  {}

  lemma EndOfRecords(d: seq<byte>)
    requires ExtentOf(d).Some?
    ensures Ended(RecordsOf(d)) <==> FlagME(d[0]) || Ended(RecordsOf(d[ExtentOf(d).value.Total()..]))
  {
    var more := RecordsOf(d[ExtentOf(d).value.Total()..]);
    assert RecordsOf(d) == [RecordOf(d)] + if FlagME(d[0]) then [] else more;
    assert RecordOf(d).me == FlagME(d[0]);
  }

  lemma FirstOfRecords(data: seq<byte>)
    requires ExtentOf(data).Some?
    ensures FirstAnswer(RecordsOf(data)) ==
            if Answers(RecordOf(data)) then Some(RecordOf(data))
            else if FlagME(data[0]) then None
            else FirstAnswer(RecordsOf(data[ExtentOf(data).value.Total()..]))
  {
    var r := RecordOf(data);
    assert RecordsOf(data)[0] == r;
    if FlagME(data[0]) {
      assert RecordsOf(data)[1..] == [];
    } else {
      assert RecordsOf(data)[1..] == RecordsOf(data[ExtentOf(data).value.Total()..]);
    }
  }

  // ---------------------------------------------------------------- the data area

  /** The blocks of a data area, up to a terminator or the first that does not fit. */
  function TlvsOf(area: seq<byte>): seq<Tlv>
    decreases |area|
  {
    if !Readable(area) then [] else [TlvOf(area)] + TlvsOf(area[TlvSize(area)..])
  }

  function EncodeTlvs(bs: seq<Tlv>): seq<byte>
    requires forall b :: b in bs ==> EncodableTlv(b)
  {
    if bs == [] then [] else EncodeTlv(bs[0]) + EncodeTlvs(bs[1..])
  }

  /** Reading back an area that was laid out block by block. */
  lemma {:induction false} ReadsTlvs(bs: seq<Tlv>, rest: seq<byte>)
    requires forall b :: b in bs ==> EncodableTlv(b)
    ensures TlvsOf(EncodeTlvs(bs) + rest) == bs + TlvsOf(rest)
    decreases |bs|
  {
    if bs == [] {
      assert EncodeTlvs(bs) + rest == rest;
    } else {
      var b, more := bs[0], bs[1..];
      assert bs == [b] + more && EncodeTlvs(bs) == EncodeTlv(b) + EncodeTlvs(more);
      Apart(EncodeTlv(b), EncodeTlvs(more), rest);
      TlvUnique(b, EncodeTlvs(more) + rest);
      ReadsTlvs(more, rest);
      Apart([b], more, TlvsOf(rest));
    }
  }

  /** Every area is its blocks, one after the other, and a rest that cannot be read. */
  lemma {:induction false} EveryAreaEncodes(area: seq<byte>) returns (rest: seq<byte>)
    ensures var bs := TlvsOf(area);
            (forall b :: b in bs ==> EncodableTlv(b)) && area == EncodeTlvs(bs) + rest && !Readable(rest)
    decreases |area|
  {
    rest := area;
    if Readable(area) {
      var n := TlvSize(area);
      var b, more := TlvOf(area), area[n..];
      EveryTlvEncodes(area);
      rest := EveryAreaEncodes(more);
      var bs := TlvsOf(more);
      assert TlvsOf(area) == [b] + bs && ([b] + bs)[1..] == bs;
      assert EncodeTlvs([b] + bs) == EncodeTlv(b) + EncodeTlvs(bs);
      Apart(area[..n], EncodeTlvs(TlvsOf(more)), rest);
      assert area == area[..n] + more;
    }
  }

  /** The records of all NDEF messages, in order. */
  function RecordsIn(bs: seq<Tlv>): seq<Record> {
    if bs == [] then [] else RecordsAt(bs[0]) + RecordsIn(bs[1..])
  }

  function RecordsAt(b: Tlv): seq<Record> {
    if b.Block? && b.tag == TLV_NDEF then RecordsOf(b.value) else []
  }

  lemma {:induction false} AreaPicks(area: seq<byte>, c: Creds)
    ensures Picks(ScanArea(area, c), FirstAnswer(RecordsIn(TlvsOf(area))))
    decreases |area|
  {
    if Readable(area) {
      var b, more := TlvOf(area), area[TlvSize(area)..];
      assert TlvsOf(area)[0] == b && TlvsOf(area)[1..] == TlvsOf(more);
      if b.Block? && b.tag == TLV_NDEF {
        MessagePicks(b.value, c);
      }
      FirstAnswerConcat(RecordsAt(b), RecordsIn(TlvsOf(more)));
      match TlvFront(area, c)
      case Done(_) =>
      case Skip(n, c') => AreaPicks(more, c');
    }
  }

  predicate AstrayAt(b: Tlv) {
    b.Block? && b.tag == TLV_NDEF && Astray(b.value, |b.value|)
  }

  /** Some message leads the reader astray before a record is taken. */
  ghost predicate BlocksAstray(bs: seq<Tlv>) {
    bs != [] && (AstrayAt(bs[0]) || (FirstAnswer(RecordsAt(bs[0])).None? && BlocksAstray(bs[1..])))
  }

  /** On the handheld a data area leads the reader astray exactly when one of its blocks does. */
  lemma {:induction false} AreaAstrayExactlyWhen(area: seq<byte>)
    ensures AreaAstray(area) <==> BlocksAstray(TlvsOf(area))
    decreases |area|
  {
    if Readable(area) {
      var more := area[TlvSize(area)..];
      assert TlvsOf(area)[0] == TlvOf(area) && TlvsOf(area)[1..] == TlvsOf(more);
      FrontBlock(area);
      AreaAstrayExactlyWhen(more);
    }
  }

  lemma {:induction false} FrontBlock(area: seq<byte>)
    requires Readable(area)
    ensures var b := TlvOf(area);
            && (MessageAstray(area) <==> AstrayAt(b))
            && (TlvFront(area, NO_CREDS).Done? <==> FirstAnswer(RecordsAt(b)).Some?)
            && (TlvFront(area, NO_CREDS).Skip? ==> TlvFront(area, NO_CREDS).n == TlvSize(area))
  {
    var b := TlvOf(area);
    if b.Block? && b.tag == TLV_NDEF {
      MessagePicks(b.value, NO_CREDS);
    }
  }

  lemma {:induction false} BlocksAstrayConcat(a: seq<Tlv>, b: seq<Tlv>)
    ensures BlocksAstray(a + b) <==> BlocksAstray(a) || (FirstAnswer(RecordsIn(a)).None? && BlocksAstray(b))
    decreases |a|
  {
    if a == [] {
      assert a + b == b;
    } else {
      assert (a + b)[0] == a[0] && (a + b)[1..] == a[1..] + b;
      BlocksAstrayConcat(a[1..], b);
      FirstAnswerConcat(RecordsAt(a[0]), RecordsIn(a[1..]));
    }
  }

  // ---------------------------------------------------------------- the tag

  /** The records on a tag, when it has the magic number and a data area. */
  function TagRecords(pages: seq<byte>, pagesRead: nat): seq<Record>
    requires pagesRead * 4 <= |pages|
  {
    if pagesRead < 5 || pages[12] != CC_MAGIC then [] else RecordsIn(TlvsOf(pages[16..pagesRead * 4]))
  }

  /** Every tag whatsoever: the reader succeeds exactly when some record on it is a Wi-Fi record with an
      acceptable SSID, and what it reads is the last accepted SSID, authentication type and key of the first
      such record, nothing of any other. */
  lemma TagPicks(pages: seq<byte>, pagesRead: nat, before: Creds)
    requires pagesRead * 4 <= |pages|
    ensures Picks(ScanTag(pages, pagesRead, before), FirstAnswer(TagRecords(pages, pagesRead)))
  {
    if pagesRead >= 5 && pages[12] == CC_MAGIC {
      AreaPicks(pages[16..pagesRead * 4], before);
    }
  }

  /** The handheld on every tag that does not lead it astray: within bounds, terminating, and with the same
      outcome. */
  method ReadTag(pages: seq<byte>, pagesRead: nat, creds: CredsBuffer) returns (ok: bool)
    requires pagesRead * 4 <= |pages| && !TagAstray(pages, pagesRead) && creds.Valid()
    modifies creds, creds.ssid, creds.password
    ensures creds.Valid()
    ensures Picks(Scan(ok, creds.Value()), FirstAnswer(TagRecords(pages, pagesRead)))
  {
    TagPicks(pages, pagesRead, creds.Value());
    ok := ParseWifiTag(pages, pagesRead, creds);
  }

  // ---------------------------------------------------------------- the round trip

  lemma {:induction false} RecordsInConcat(a: seq<Tlv>, b: seq<Tlv>)
    ensures RecordsIn(a + b) == RecordsIn(a) + RecordsIn(b)
    decreases |a|
  {
    if a == [] {
      assert a + b == b;
    } else {
      assert (a + b)[0] == a[0] && (a + b)[1..] == a[1..] + b;
      RecordsInConcat(a[1..], b);
      Apart(RecordsAt(a[0]), RecordsIn(a[1..]), RecordsIn(b));
    }
  }

  /** Blocks in front that hold nothing to take change nothing: NULL blocks, blocks of other types, messages
      without an answering record. */
  lemma PrependBlocks(bs: seq<Tlv>, rest: seq<byte>, c: Creds)
    requires forall b :: b in bs ==> EncodableTlv(b)
    requires forall r :: r in RecordsIn(bs) ==> !Answers(r)
    ensures ScanArea(EncodeTlvs(bs) + rest, c).ok == ScanArea(rest, c).ok
    ensures ScanArea(rest, c).ok ==> ScanArea(EncodeTlvs(bs) + rest, c) == ScanArea(rest, c)
    ensures AreaAstray(EncodeTlvs(bs) + rest) <==> BlocksAstray(bs) || AreaAstray(rest)
  {
    AreaAstrayExactlyWhen(EncodeTlvs(bs) + rest);
    AreaAstrayExactlyWhen(rest);
    BlocksAstrayConcat(bs, TlvsOf(rest));
    ReadsTlvs(bs, rest);
    RecordsInConcat(bs, TlvsOf(rest));
    FirstAnswerConcat(RecordsIn(bs), RecordsIn(TlvsOf(rest)));
    AreaPicks(EncodeTlvs(bs) + rest, c);
    AreaPicks(rest, c);
  }

  /** Nor do records in front that are not taken and do not end the message. */
  lemma PrependRecords(rs: seq<Record>, rest: seq<byte>, c: Creds)
    requires forall r :: r in rs ==> EncodableRecord(r) && !r.me && !Answers(r)
    ensures ScanMessage(EncodeRecords(rs) + rest, c).ok == ScanMessage(rest, c).ok
    ensures ScanMessage(rest, c).ok ==> ScanMessage(EncodeRecords(rs) + rest, c) == ScanMessage(rest, c)
  {
    ReadsRecords(rs, rest);
    FirstAnswerConcat(rs, RecordsOf(rest));
    MessagePicks(EncodeRecords(rs) + rest, c);
    MessagePicks(rest, c);
  }

  lemma FirstAfter(others: seq<Record>, r: Record, more: seq<Record>)
    requires forall o :: o in others ==> !Answers(o)
    requires Answers(r)
    ensures FirstAnswer(others + ([r] + more)) == Some(r)
  {
    FirstAnswerConcat(others, [r] + more);
  }

  /** The message: other records, the Wi-Fi record, and anything after it. */
  function MessageOf(others: seq<Record>, r: Record, tail: seq<byte>): seq<byte>
    requires EncodableRecord(r) && forall o :: o in others ==> EncodableRecord(o)
  {
    EncodeRecords(others) + (EncodeRecord(r) + tail)
  }

  lemma MessageAnswers(others: seq<Record>, r: Record, tail: seq<byte>)
    requires EncodableRecord(r) && Answers(r)
    requires forall o :: o in others ==> EncodableRecord(o) && !o.me && !Answers(o)
    ensures FirstAnswer(RecordsOf(MessageOf(others, r, tail))) == Some(r)
  {
    ReadsRecords(others, EncodeRecord(r) + tail);
    FirstRecord(r, tail);
    FirstAfter(others, r, if r.me then [] else RecordsOf(tail));
  }

  lemma AreaAnswers(blocks: seq<Tlv>, b: Tlv, r: Record, tail: seq<byte>)
    requires forall x :: x in blocks ==> EncodableTlv(x)
    requires forall o :: o in RecordsIn(blocks) ==> !Answers(o)
    requires EncodableTlv(b) && b.Block? && b.tag == TLV_NDEF && FirstAnswer(RecordsOf(b.value)) == Some(r)
    ensures FirstAnswer(RecordsIn(TlvsOf(EncodeTlvs(blocks) + (EncodeTlv(b) + tail)))) == Some(r)
    ensures AreaAstray(EncodeTlvs(blocks) + (EncodeTlv(b) + tail)) <==> BlocksAstray(blocks)
  {
    var d, more := EncodeTlv(b) + tail, TlvsOf(tail);
    ReadsTlvs(blocks, d);
    TlvUnique(b, tail);
    assert TlvsOf(d) == [b] + more;
    assert ([b] + more)[1..] == more;
    RecordsInConcat(blocks, TlvsOf(d));
    FirstAnswerConcat(RecordsIn(blocks), RecordsIn(TlvsOf(d)));
    FirstAnswerConcat(RecordsOf(b.value), RecordsIn(more));
    AreaAstrayExactlyWhen(EncodeTlvs(blocks) + d);
    BlocksAstrayConcat(blocks, TlvsOf(d));
    AstrayExactlyWhen(b.value, |b.value|);
  }

  /** The round trip.  On a tag whose data area holds any blocks without a record that the reader would take,
      then an NDEF message with any such records before a Wi-Fi record whose payload encodes an attribute
      tree with an acceptable SSID, and anything at all behind it, the reader finds exactly what the leaves
      of the tree say: any nesting, any order, any repetition, any malformed tails. */
  lemma TagRoundTrip(pages: seq<byte>, pagesRead: nat, blocks: seq<Tlv>, long: bool, others: seq<Record>, r: Record,
                     t: Attrs, messageTail: seq<byte>, areaTail: seq<byte>, before: Creds)
    requires 5 <= pagesRead && pagesRead * 4 <= |pages| && pages[12] == CC_MAGIC
    requires forall b :: b in blocks ==> EncodableTlv(b)
    requires forall o :: o in RecordsIn(blocks) ==> !Answers(o)
    requires forall o :: o in others ==> EncodableRecord(o) && !o.me && !Answers(o)
    requires EncodableRecord(r) && IsWifi(r) && Encodable(t) && r.payload == Encode(t) && HasSsid(Leaves(t))
    requires EncodableTlv(Block(TLV_NDEF, long, MessageOf(others, r, messageTail)))
    requires pages[16..pagesRead * 4] ==
             EncodeTlvs(blocks) + (EncodeTlv(Block(TLV_NDEF, long, MessageOf(others, r, messageTail))) + areaTail)
    ensures ScanTag(pages, pagesRead, before) == Scan(true, CredsIn(Leaves(t)))
    ensures TagAstray(pages, pagesRead) <==> BlocksAstray(blocks)
  {
    EncodingUnique(t);
    MessageAnswers(others, r, messageTail);
    AreaAnswers(blocks, Block(TLV_NDEF, long, MessageOf(others, r, messageTail)), r, areaTail);
    TagPicks(pages, pagesRead, before);
  }

  // ---------------------------------------------------------------- a writer

  /** The one record of its message, short, without an ID. */
  function WriteRecord(t: Attrs): (r: Record)
    requires Encodable(t) && |Encode(t)| < 200
    ensures EncodableRecord(r) && |EncodeRecord(r)| == 26 + |Encode(t)|
  {
    Record(true, true, false, true, TNF_MEDIA_TYPE, WIFI_TYPE, None, Encode(t))
  }

  function WriteBlock(t: Attrs): (b: Tlv)
    requires Encodable(t) && |Encode(t)| < 200
    ensures EncodableTlv(b)
  {
    Block(TLV_NDEF, false, MessageOf([], WriteRecord(t), []))
  }

  /** Zero pages, the capability container, the message block and a terminator, filled up to whole pages. */
  function WriteTag(t: Attrs): (pages: seq<byte>)
    requires Encodable(t) && |Encode(t)| < 200
    ensures |pages| % 4 == 0
  {
    FillUp(Repeat(0, 12) + [CC_MAGIC, 0x10, 0x3E, 0x00] + (EncodeTlv(WriteBlock(t)) + [TLV_TERMINATOR]))
  }

  function FillUp(s: seq<byte>): (r: seq<byte>)
    ensures |r| % 4 == 0 && s <= r
  {
    NextMultiple(|s|);
    s + Repeat(0, 3 - (|s| + 3) % 4)
  }

  lemma NextMultiple(n: nat)
    ensures (n + (3 - (n + 3) % 4)) % 4 == 0
  {
    var q, r := (n + 3) / 4, (n + 3) % 4;
    assert n + (3 - r) == 4 * q;
  }

  lemma WrittenPages(front: seq<byte>, block: seq<byte>, pages: seq<byte>) returns (tail: seq<byte>)
    requires |front| == 16 && |pages| % 4 == 0 && front + (block + [TLV_TERMINATOR]) <= pages
    ensures pages[..16] == front && 5 <= |pages| / 4
    ensures pages[16..|pages| / 4 * 4] == [] + (block + tail)
  {
    tail := pages[16 + |block|..];
    assert pages[..16 + |block|] == front + block;
    assert pages == pages[..16 + |block|] + tail;
  }

  /** What is written is read, for every attribute tree with an SSID that fits. */
  lemma ReadsWritten(t: Attrs, before: Creds)
    requires Encodable(t) && |Encode(t)| < 200 && HasSsid(Leaves(t))
    ensures ScanTag(WriteTag(t), |WriteTag(t)| / 4, before) == Scan(true, CredsIn(Leaves(t)))
    ensures !TagAstray(WriteTag(t), |WriteTag(t)| / 4)
  {
    var front, pages := Repeat(0, 12) + [CC_MAGIC, 0x10, 0x3E, 0x00], WriteTag(t);
    var tail := WrittenPages(front, EncodeTlv(WriteBlock(t)), pages);
    assert pages[12] == front[12];
    TagRoundTrip(pages, |pages| / 4, [], false, [], WriteRecord(t), t, [], tail, before);
  }

  const ATTR_NETWORK_INDEX := 0x1026
  const ATTR_ENCRYPTION := 0x100F
  const ATTR_MAC := 0x1020

  /** The standard's codes for the security types. */
  function AuthCode(security: byte): nat {
    if security == SEC_OPEN then 0x0001 else if security == SEC_WEP then 0x0004 else 0x0020
  }

  function Listed(ls: seq<Leaf>): Attrs {
    if ls == [] then End([]) else Plain(ls[0].id, ls[0].value, Listed(ls[1..]))
  }

  lemma {:induction false} ListedLeaves(ls: seq<Leaf>)
    ensures Leaves(Listed(ls)) == ls
  {
    if ls != [] {
      ListedLeaves(ls[1..]);
    }
  }

  /** A credential as the standard has it: index, SSID, authentication, encryption, key and address.  The key
      is there even when it is empty, with length zero. */
  function CredentialLeaves(c: Creds): seq<Leaf> {
    [Leaf(ATTR_NETWORK_INDEX, [1]), Leaf(ATTR_SSID, c.ssid), Leaf(ATTR_AUTH_TYPE, Be16(AuthCode(c.security))),
     Leaf(ATTR_ENCRYPTION, [0x00, 0x08]), Leaf(ATTR_NET_KEY, c.password),
     Leaf(ATTR_MAC, [0xFF, 0xFF, 0xFF, 0xFF, 0xFF, 0xFF])]
  }

  function WriteAttrs(c: Creds): Attrs {
    Credential(Listed(CredentialLeaves(c)), End([]))
  }

  function SizeOf(ls: seq<Leaf>): nat {
    if ls == [] then 0 else 4 + |ls[0].value| + SizeOf(ls[1..])
  }

  lemma {:induction false} ListedFits(ls: seq<Leaf>)
    requires forall l :: l in ls ==> l.id < 0x1_0000 && l.id != ATTR_CREDENTIAL && |l.value| < 0x1_0000
    ensures Encodable(Listed(ls)) && |Encode(Listed(ls))| == SizeOf(ls)
  {
    if ls != [] {
      ListedFits(ls[1..]);
    }
  }

  lemma WriteAttrsFits(c: Creds)
    requires ValidCreds(c)
    ensures Encodable(WriteAttrs(c)) && |Encode(WriteAttrs(c))| <= 136
  {
    var ls := CredentialLeaves(c);
    ListedFits(ls);
    assert SizeOf(ls[6..]) == 0;
    assert SizeOf(ls[4..]) == 14 + |c.password|;
    assert SizeOf(ls[2..]) == 26 + |c.password|;
    assert SizeOf(ls) == 35 + |c.ssid| + |c.password|;
  }

  lemma CredentialSays(c: Creds)
    requires ValidCreds(c) && c.security != SEC_SAE && !c.hidden
    ensures CredsIn(CredentialLeaves(c)) == c && HasSsid(CredentialLeaves(c))
  {
    var ls := CredentialLeaves(c);
    LastIndexIs(ls, AcceptsSsid, 2);
    LastIndexIs(ls, AcceptsAuth, 3);
    LastIndexIs(ls, AcceptsKey, if c.password == [] then 0 else 5);
    CStrOfCString(c.ssid);
    CStrOfCString(c.password);
    assert AcceptsSsid(ls[1]);
  }

  /** Whatever can be put on a tag is read back from it. */
  lemma WriteThenRead(c: Creds, before: Creds)
    requires ValidCreds(c) && c.security != SEC_SAE && !c.hidden
    ensures Encodable(WriteAttrs(c)) && |Encode(WriteAttrs(c))| < 200
    ensures ScanTag(WriteTag(WriteAttrs(c)), |WriteTag(WriteAttrs(c))| / 4, before) == Scan(true, c)
    ensures !TagAstray(WriteTag(WriteAttrs(c)), |WriteTag(WriteAttrs(c))| / 4)
  {
    WriteAttrsFits(c);
    CredentialSays(c);
    ListedLeaves(CredentialLeaves(c));
    assert Leaves(WriteAttrs(c)) == CredentialLeaves(c) + [] == CredentialLeaves(c);
    ReadsWritten(WriteAttrs(c), before);
  }

  /** Which credentials a tag can carry: exactly the valid ones that are neither SAE, which has no code of
      its own, nor hidden, which has no attribute. */
  lemma CarriableExactlyWhen(c: Creds)
    requires ValidCreds(c)
    ensures (exists ls :: HasSsid(ls) && CredsIn(ls) == c) <==> c.security != SEC_SAE && !c.hidden
  {
    if c.security != SEC_SAE && !c.hidden {
      CredentialSays(c);
    }
    forall ls | HasSsid(ls) && CredsIn(ls) == c
      ensures c.security != SEC_SAE && !c.hidden
    {
      SaysBounded(ls);
    }
  }

  // ---------------------------------------------------------------- from a tag to the infrared link

  lemma SaysBounded(ls: seq<Leaf>)
    ensures Bounded(CredsIn(ls))
  {
    FoldKeepsLast(ls);
    FoldStaysBounded(Found(NO_CREDS, false), ls);
  }

  /** The last accepted SSID does not begin with NUL. */
  predicate SsidReadable(ls: seq<Leaf>) {
    var k := LastIndex(ls, AcceptsSsid);
    k > 0 && ls[k - 1].value[0] != 0
  }

  /** Every tag whatsoever: credentials that are found on it can be sent over infrared and come back
      unchanged exactly when the last accepted SSID of the record they come from does not begin with NUL. */
  lemma FoundCredsSendable(pages: seq<byte>, pagesRead: nat, before: Creds)
    requires pagesRead * 4 <= |pages| && ScanTag(pages, pagesRead, before).ok
    ensures FirstAnswer(TagRecords(pages, pagesRead)).Some?
    ensures var c := ScanTag(pages, pagesRead, before).creds;
            var r := FirstAnswer(TagRecords(pages, pagesRead)).value;
            Bounded(c) && (Parse(Build(c)) == Some(c) <==> SsidReadable(LeavesIn(r)))
  {
    TagPicks(pages, pagesRead, before);
    LeavesSendable(LeavesIn(FirstAnswer(TagRecords(pages, pagesRead)).value));
  }

  lemma LeavesSendable(ls: seq<Leaf>)
    requires HasSsid(ls)
    ensures var c := CredsIn(ls);
            Bounded(c) && (Parse(Build(c)) == Some(c) <==> SsidReadable(ls))
  {
    SaysBounded(ls);
    SsidSays(ls);
    Sendable(CredsIn(ls));
  }

  lemma SsidSays(ls: seq<Leaf>)
    requires HasSsid(ls)
    ensures var k := LastIndex(ls, AcceptsSsid);
            k > 0 && AcceptsSsid(ls[k - 1]) && (CredsIn(ls).ssid != [] <==> ls[k - 1].value[0] != 0)
  {
    var l :| l in ls && AcceptsSsid(l);
    var j :| 0 <= j < |ls| && ls[j] == l;
  }

  lemma Sendable(c: Creds)
    requires Bounded(c)
    ensures Parse(Build(c)) == Some(c) <==> c.ssid != []
  {
    RoundTrip(c);
  }

  /** Such a tag exists: the reader answers yes to it with empty credentials, which the parser at the other
      end refuses. */
  lemma EmptySsidAccepted(before: Creds) returns (pages: seq<byte>)
    ensures |pages| % 4 == 0 && ScanTag(pages, |pages| / 4, before) == Scan(true, NO_CREDS)
    ensures !TagAstray(pages, |pages| / 4)
    ensures Parse(Build(NO_CREDS)) == None
  {
    var l := Leaf(ATTR_SSID, [0]);
    ListedFits([l]);
    ListedLeaves([l]);
    assert SizeOf([l][1..]) == 0;
    assert AcceptsSsid(l);
    LastIndexIs([l], AcceptsSsid, 1);
    LastIndexIs([l], AcceptsAuth, 0);
    LastIndexIs([l], AcceptsKey, 0);
    pages := WriteTag(Listed([l]));
    ReadsWritten(Listed([l]), before);
    ParseBuild(NO_CREDS);
  }
}
