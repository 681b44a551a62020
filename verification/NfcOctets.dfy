/** The tag reader in octets and numbers: attribute identifiers, security codes, flags and lengths as the
    standards have them, whole tags octet by octet, and what is left behind when nothing is found. */
module NfcOctets {
  import opened Bytes
  import opened Codec
  import opened Nfc
  import opened NfcWidth
  import opened NfcEncoding
  import opened NfcTags

  // ---------------------------------------------------------------- attributes

  /** Which attributes are accepted: an SSID of 1 to 32 octets, a type of 2, a key of 1 to 63. */
  lemma AcceptsInNumbers(l: Leaf)
    ensures AcceptsSsid(l) <==> l.id == 0x1045 && 1 <= |l.value| <= 32
    ensures AcceptsAuth(l) <==> l.id == 0x1003 && |l.value| == 2
    ensures AcceptsKey(l) <==> l.id == 0x1027 && 1 <= |l.value| <= 63
  {}

  /** How the attributes at the front are read: identifier and length with the high octet first, a credential
      opened up, anything that does not fit the end of its container. */
  lemma {:induction false} FlattenInNumbers(d: seq<byte>, id: nat, end: nat)
    requires |d| >= 4 ==> id == d[0] as int * 256 + d[1] && end == 4 + d[2] as int * 256 + d[3]
    ensures |d| < 4 || end > |d| ==> Flatten(d) == []
    ensures |d| >= 4 && end <= |d| ==>
              Flatten(d) == (if id == 0x100E then Flatten(d[4..end]) else [Leaf(id, d[4..end])]) + Flatten(d[end..])
  {
    if |d| >= 4 && end <= |d| {
      assert Flatten(d) == OneAttribute(id, d[4..end]) + Flatten(d[end..]);
    }
  }

  /** What a list of leaves says about the security: open without an accepted type or with the code 00 01, WEP
      with 00 04, and WPA with every other code. */
  lemma {:induction false} SecuritySaid(ls: seq<Leaf>)
    ensures var k := LastIndex(ls, AcceptsAuth);
            && (CredsIn(ls).security == 0 <==> k == 0 || ls[k - 1].value == [0x00, 0x01])
            && (CredsIn(ls).security == 2 <==> k > 0 && ls[k - 1].value == [0x00, 0x04])
            && (CredsIn(ls).security == 1 <==> k > 0 && ls[k - 1].value != [0x00, 0x01] && ls[k - 1].value != [0x00, 0x04])
  {
    var k := LastIndex(ls, AcceptsAuth);
    if k > 0 {
      CodeInOctets(ls[k - 1].value);
    }
  }

  lemma CodeInOctets(v: seq<byte>)
    requires |v| == 2
    ensures Word16(v[0], v[1]) == 1 <==> v == [0x00, 0x01]
    ensures Word16(v[0], v[1]) == 4 <==> v == [0x00, 0x04]
  {}

  /** And SSID and key: the octets of the last accepted one, up to the first NUL. */
  lemma {:induction false} SsidTextSaid(ls: seq<Leaf>)
    ensures var k := LastIndex(ls, AcceptsSsid);
            CredsIn(ls).ssid == if k == 0 then [] else CStr(ls[k - 1].value)
    ensures !CredsIn(ls).hidden
  {}

  lemma {:induction false} KeyTextSaid(ls: seq<Leaf>)
    ensures var k := LastIndex(ls, AcceptsKey);
            CredsIn(ls).password == if k == 0 then [] else CStr(ls[k - 1].value)
  {}

  /** On every tag that is answered: the security type, by the last accepted type of the record it is read from. */
  lemma SecurityOnTag(pages: seq<byte>, pagesRead: nat, before: Creds)
    requires pagesRead * 4 <= |pages| && ScanTag(pages, pagesRead, before).ok
    ensures FirstAnswer(TagRecords(pages, pagesRead)).Some?
    ensures var security := ScanTag(pages, pagesRead, before).creds.security;
            var ls := LeavesIn(FirstAnswer(TagRecords(pages, pagesRead)).value);
            var k := LastIndex(ls, AcceptsAuth);
            && (security == 0 <==> k == 0 || ls[k - 1].value == [0x00, 0x01])
            && (security == 2 <==> k > 0 && ls[k - 1].value == [0x00, 0x04])
            && (security == 1 <==> k > 0 && ls[k - 1].value != [0x00, 0x01] && ls[k - 1].value != [0x00, 0x04])
  {
    TagPicks(pages, pagesRead, before);
    SecuritySaid(LeavesIn(FirstAnswer(TagRecords(pages, pagesRead)).value));
  }

  // ---------------------------------------------------------------- headers

  /** The flags of a record: message end, short record, ID present, and the type name format. */
  lemma FlagsInNumbers(f: byte)
    ensures FlagME(f) <==> f % 128 >= 64
    ensures FlagSR(f) <==> f % 32 >= 16
    ensures FlagIL(f) <==> f % 16 >= 8
    ensures Tnf(f) == f - f / 8 * 8
  {
    MessageEndInNumbers(f);
    ShortInNumbers(f);
    IdInNumbers(f);
  }

  lemma MessageEndInNumbers(f: byte)
    ensures FlagME(f) <==> f % 128 >= 64
  {}

  lemma ShortInNumbers(f: byte)
    ensures FlagSR(f) <==> f % 32 >= 16
  {}

  lemma IdInNumbers(f: byte)
    ensures FlagIL(f) <==> f % 16 >= 8
  {}

  /** The header of a record: type length, a payload length of one octet or four, the high one first, and the
      length of the ID when there is one. */
  lemma HeaderInNumbers(d: seq<byte>)
    ensures var short, withId := |d| > 0 && d[0] % 32 >= 16, |d| > 0 && d[0] % 16 >= 8;
            var fixed := if short then 3 else 6;
            HeaderOf(d) ==
            if |d| < fixed + (if withId then 1 else 0) then None
            else Some(Extent(fixed + (if withId then 1 else 0), d[1], if withId then d[fixed] else 0,
                             if short then d[2] else d[2] as int * 0x100_0000 + d[3] as int * 0x1_0000 + d[4] as int * 0x100 + d[5]))
  {
    if d != [] {
      FlagsInNumbers(d[0]);
    }
  }

  /** The length of a block: one octet, or after FF two with the high one first. */
  lemma TlvInNumbers(d: seq<byte>)
    requires |d| > 0
    ensures var long := |d| > 1 && d[1] == 0xFF;
            var start := if long then 4 else 2;
            TlvExtent(d) ==
            if |d| < start then None
            else
              var len: nat := if long then d[2] as int * 0x100 + d[3] else d[1];
              if start + len > |d| then None else Some((start, len))
  {}

  /** The kinds of blocks: 00 is skipped, FE ends the area, 03 is a message, and any other is skipped whole. */
  lemma {:induction false} BlockKindsInNumbers(d: seq<byte>, c: Creds)
    ensures d == [] || d[0] == 0xFE ==> TlvFront(d, c) == Done(Scan(false, c))
    ensures d != [] && d[0] == 0x00 ==> TlvFront(d, c) == Skip(1, c)
    ensures d != [] && d[0] != 0x00 && d[0] != 0x03 && d[0] != 0xFE && TlvExtent(d).Some? ==>
              TlvFront(d, c) == Skip(TlvExtent(d).value.0 + TlvExtent(d).value.1, c)
    ensures d != [] && d[0] != 0x00 && d[0] != 0xFE && TlvExtent(d).None? ==> TlvFront(d, c) == Done(Scan(false, c))
  {}

  /** Which records are Wi-Fi records. */
  lemma WifiInText(r: Record)
    ensures IsWifi(r) <==> r.tnf == 2 && r.kind == Ascii("application/vnd.wfa.wsc")
  {}

  /** A tag is not looked at with fewer than five pages, or without the magic number at the start of page 3. */
  lemma MagicInNumbers(pages: seq<byte>, pagesRead: nat, before: Creds)
    requires pagesRead * 4 <= |pages|
    ensures pagesRead < 5 || pages[12] != 0xE1 ==> ScanTag(pages, pagesRead, before) == Scan(false, before)
    ensures pagesRead >= 5 && pages[12] == 0xE1 ==>
              ScanTag(pages, pagesRead, before) == ScanArea(pages[16..pagesRead * 4], before)
  {}

  // ---------------------------------------------------------------- whole tags

  const KEY: seq<byte> := Ascii("secret")

  /** A credential with the SSID "home", WPA2 and the key "secret". */
  const HOME: Creds := Creds(Ascii("home"), KEY, SEC_WPA, false)

  const HOME_ATTRIBUTES: seq<byte> :=
    [0x10, 0x45, 0x00, 0x04] + Ascii("home") + ([0x10, 0x03, 0x00, 0x02, 0x00, 0x20] + ([0x10, 0x27, 0x00, 0x06] + KEY))

  function HomeLeaves(): seq<Leaf> {
    [Leaf(0x1045, Ascii("home")), Leaf(0x1003, [0x00, 0x20]), Leaf(0x1027, KEY)]
  }

  lemma HomeSays()
    ensures CredsIn(HomeLeaves()) == HOME && HasSsid(HomeLeaves())
  {
    var ls := HomeLeaves();
    LastIndexIs(ls, AcceptsSsid, 1);
    LastIndexIs(ls, AcceptsAuth, 2);
    LastIndexIs(ls, AcceptsKey, 3);
    CStrOfCString(Ascii("home"));
    CStrOfCString(KEY);
    assert AcceptsSsid(ls[0]);
  }

  function HomeTree(): Attrs {
    Credential(Plain(0x1045, Ascii("home"), Plain(0x1003, [0x00, 0x20], Plain(0x1027, KEY, End([])))), End([]))
  }

  lemma HomeEncodes()
    ensures Encodable(HomeTree()) && Encode(HomeTree()) == [0x10, 0x0E, 0x00, 0x18] + HOME_ATTRIBUTES
    ensures Leaves(HomeTree()) == HomeLeaves()
  {
    var key := Plain(0x1027, KEY, End([]));
    assert Encode(key) == [0x10, 0x27, 0x00, 0x06] + KEY;
    var auth := Plain(0x1003, [0x00, 0x20], key);
    assert Encode(auth) == [0x10, 0x03, 0x00, 0x02, 0x00, 0x20] + Encode(key);
    var ssid := Plain(0x1045, Ascii("home"), auth);
    assert Encode(ssid) == [0x10, 0x45, 0x00, 0x04] + Ascii("home") + Encode(auth);
    assert Encode(ssid) == HOME_ATTRIBUTES && |HOME_ATTRIBUTES| == 24;
    assert Encode(HomeTree()) == EncodeOne(0x100E, HOME_ATTRIBUTES) + [];
    assert Leaves(key) == [Leaf(0x1027, KEY)];
    assert Leaves(auth) == [Leaf(0x1003, [0x00, 0x20]), Leaf(0x1027, KEY)];
    assert Leaves(ssid) == HomeLeaves();
    assert Leaves(HomeTree()) == HomeLeaves() + [] == HomeLeaves();
  }

  /** A short record without an ID, in a block with a length of one octet. */
  function HomeTag(): seq<byte> {
    Repeat(0, 12) + [0xE1, 0x10, 0x3E, 0x00]
    + ([0x03, 0x36] + (([0xD2, 0x17, 0x1C] + Ascii("application/vnd.wfa.wsc") + [0x10, 0x0E, 0x00, 0x18] + HOME_ATTRIBUTES)
                       + [0xFE, 0x00, 0x00, 0x00, 0x00, 0x00, 0x00, 0x00]))
  }

  /** A long record with an ID, in a block with a length of three octets. */
  function LongHomeTag(): seq<byte> {
    Repeat(0, 12) + [0xE1, 0x10, 0x3E, 0x00]
    + ([0x03, 0xFF, 0x00, 0x3B]
       + (([0xCA, 0x17, 0x00, 0x00, 0x00, 0x1C, 0x01] + Ascii("application/vnd.wfa.wsc") + [0x30]
           + [0x10, 0x0E, 0x00, 0x18] + HOME_ATTRIBUTES)
          + [0xFE]))
  }

  lemma {:induction false} ShortRecord(kind: seq<byte>, payload: seq<byte>)
    requires |kind| == 23 && |payload| == 28
    ensures var r := Record(true, true, false, true, 2, kind, None, payload);
            EncodableRecord(r) && EncodeRecord(r) == [0xD2, 0x17, 0x1C] + kind + payload
  {
    var r := Record(true, true, false, true, 2, kind, None, payload);
    assert Header(r) == [0xD2, 0x17, 0x1C] && Id(r) == [];
  }

  lemma {:induction false} LongRecord(kind: seq<byte>, payload: seq<byte>)
    requires |kind| == 23 && |payload| == 28
    ensures var r := Record(true, true, false, false, 2, kind, Some([0x30]), payload);
            EncodableRecord(r) && EncodeRecord(r) == [0xCA, 0x17, 0x00, 0x00, 0x00, 0x1C, 0x01] + kind + [0x30] + payload
  {
    var r := Record(true, true, false, false, 2, kind, Some([0x30]), payload);
    assert Be32(28) == [0x00, 0x00, 0x00, 0x1C] && Flags(r) == 0xCA;
    assert Header(r) == [Flags(r), 0x17] + Be32(28) + [0x01] && Id(r) == [0x30];
  }

  lemma {:induction false} HomePages(front: seq<byte>, head: seq<byte>, record: seq<byte>, tail: seq<byte>, pages: seq<byte>)
    requires |front| == 16 && pages == front + (head + (record + tail)) && |pages| % 4 == 0
    ensures pages[16..|pages| / 4 * 4] == [] + ((head + record) + tail)
    ensures |record| >= 4 ==> |pages| / 4 >= 5
  {}

  /** A tag with one message of one Wi-Fi record, from its octets. */
  lemma {:induction false} TagOfOneRecord(pages: seq<byte>, front: seq<byte>, head: seq<byte>, record: seq<byte>, tail: seq<byte>, long: bool, r: Record,
                       t: Attrs, before: Creds)
    requires |front| == 16 && front[12] == 0xE1 && |pages| % 4 == 0 && pages == front + (head + (record + tail))
    requires EncodableRecord(r) && IsWifi(r) && record == EncodeRecord(r) && 4 <= |record| < 0xFF
    requires Encodable(t) && r.payload == Encode(t) && HasSsid(Leaves(t))
    requires head == [0x03] + if long then [0xFF] + Be16(|record|) else [|record|]
    ensures ScanTag(pages, |pages| / 4, before) == Scan(true, CredsIn(Leaves(t)))
  {
    var b := Block(TLV_NDEF, long, record);
    HomePages(front, head, record, tail, pages);
    assert MessageOf([], r, []) == record;
    assert EncodeTlv(b) == head + record;
    assert pages[12] == front[12];
    TagRoundTrip(pages, |pages| / 4, [], long, [], r, t, [], tail, before);
  }

  lemma ShortTagReads(before: Creds)
    ensures |HomeTag()| == 80 && ScanTag(HomeTag(), 20, before) == Scan(true, HOME)
  {
    var front, kind := Repeat(0, 12) + [0xE1, 0x10, 0x3E, 0x00], Ascii("application/vnd.wfa.wsc");
    var tail := [0xFE, 0x00, 0x00, 0x00, 0x00, 0x00, 0x00, 0x00];
    HomeParts(kind);
    ShortTagOf(front, kind, [0x10, 0x0E, 0x00, 0x18], HOME_ATTRIBUTES, tail, HomeTag(), HomeTree(), before);
  }

  lemma LongTagReads(before: Creds)
    ensures |LongHomeTag()| == 80 && ScanTag(LongHomeTag(), 20, before) == Scan(true, HOME)
  {
    var front, kind := Repeat(0, 12) + [0xE1, 0x10, 0x3E, 0x00], Ascii("application/vnd.wfa.wsc");
    HomeParts(kind);
    LongTagOf(front, kind, [0x10, 0x0E, 0x00, 0x18], HOME_ATTRIBUTES, [0xFE], LongHomeTag(), HomeTree(), before);
  }

  lemma HomeParts(kind: seq<byte>)
    requires kind == Ascii("application/vnd.wfa.wsc")
    ensures kind == WIFI_TYPE && |kind| == 23 && |HOME_ATTRIBUTES| == 24
    ensures Encodable(HomeTree()) && Encode(HomeTree()) == [0x10, 0x0E, 0x00, 0x18] + HOME_ATTRIBUTES
    ensures HasSsid(Leaves(HomeTree())) && CredsIn(Leaves(HomeTree())) == HOME
  {
    HomeEncodes();
    HomeSays();
  }

  lemma {:induction false} ShortTagOf(front: seq<byte>, kind: seq<byte>, head: seq<byte>, attributes: seq<byte>, tail: seq<byte>, pages: seq<byte>,
                   t: Attrs, before: Creds)
    requires |front| == 16 && front[12] == 0xE1 && kind == WIFI_TYPE && |kind| == 23 && |head + attributes| == 28 && |tail| == 8
    requires pages == front + ([0x03, 0x36] + (([0xD2, 0x17, 0x1C] + kind + head + attributes) + tail))
    requires Encodable(t) && head + attributes == Encode(t) && HasSsid(Leaves(t))
    ensures |pages| == 80 && ScanTag(pages, 20, before) == Scan(true, CredsIn(Leaves(t)))
  {
    var payload := head + attributes;
    var r := Record(true, true, false, true, 2, kind, None, payload);
    ShortRecord(kind, payload);
    Joined([0xD2, 0x17, 0x1C] + kind, head, attributes);
    TagOfOneRecord(pages, front, [0x03, 0x36], EncodeRecord(r), tail, false, r, t, before);
  }

  lemma {:induction false} LongTagOf(front: seq<byte>, kind: seq<byte>, head: seq<byte>, attributes: seq<byte>, tail: seq<byte>, pages: seq<byte>,
                  t: Attrs, before: Creds)
    requires |front| == 16 && front[12] == 0xE1 && kind == WIFI_TYPE && |kind| == 23 && |head + attributes| == 28 && |tail| == 1
    requires pages == front + ([0x03, 0xFF, 0x00, 0x3B]
                               + (([0xCA, 0x17, 0x00, 0x00, 0x00, 0x1C, 0x01] + kind + [0x30] + head + attributes) + tail))
    requires Encodable(t) && head + attributes == Encode(t) && HasSsid(Leaves(t))
    ensures |pages| == 80 && ScanTag(pages, 20, before) == Scan(true, CredsIn(Leaves(t)))
  {
    var payload := head + attributes;
    var r := Record(true, true, false, false, 2, kind, Some([0x30]), payload);
    LongRecord(kind, payload);
    Joined([0xCA, 0x17, 0x00, 0x00, 0x00, 0x1C, 0x01] + kind + [0x30], head, attributes);
    TagOfOneRecord(pages, front, [0x03, 0xFF, 0x00, 0x3B], EncodeRecord(r), tail, true, r, t, before);
  }

  lemma Joined(a: seq<byte>, b: seq<byte>, c: seq<byte>)
    ensures a + (b + c) == a + b + c
  {}

  /** Both tags read as the network "home" with its key, whatever was in the struct before. */
  lemma HomeTagsRead(before: Creds)
    ensures ScanTag(HomeTag(), 20, before) == Scan(true, Creds(Ascii("home"), Ascii("secret"), 1, false))
    ensures ScanTag(LongHomeTag(), 20, before) == Scan(true, Creds(Ascii("home"), Ascii("secret"), 1, false))
  {
    ShortTagReads(before);
    LongTagReads(before);
  }

  // ---------------------------------------------------------------- when nothing is found

  /** The struct after these records: what the last Wi-Fi record among them said, or what was in it before. */
  ghost function LeftBy(rs: seq<Record>, before: Creds): Creds
    decreases |rs|
  {
    if rs == [] then before
    else if IsWifi(rs[|rs| - 1]) then CredsIn(LeavesIn(rs[|rs| - 1]))
    else LeftBy(rs[..|rs| - 1], before)
  }

  lemma {:induction false} LeftByConcat(a: seq<Record>, b: seq<Record>, before: Creds)
    ensures LeftBy(a + b, before) == LeftBy(b, LeftBy(a, before))
    decreases |b|
  {
    if b == [] {
      assert a + b == a;
    } else {
      assert (a + b)[..|a + b| - 1] == a + b[..|b| - 1];
      LeftByConcat(a, b[..|b| - 1], before);
    }
  }

  lemma {:induction false} RecordLeaves(d: seq<byte>, c: Creds)
    requires ExtentOf(d).Some?
    ensures ScanRecord(d[..ExtentOf(d).value.Total()], c).creds == LeftBy([RecordOf(d)], c)
  {
    var r := RecordOf(d);
    EveryRecordEncodes(d);
    FindsPayload(r);
    EveryPayloadEncodes(r.payload);
    FlattenEncode(AttrsOf(r.payload));
    FoldKeepsLast(LeavesIn(r));
    assert [r][..0] == [];
  }

  /** A message without an answer leaves what its last Wi-Fi record says, though that has no acceptable SSID. */
  lemma {:induction false} MessageLeaves(d: seq<byte>, c: Creds)
    requires !ScanMessage(d, c).ok
    ensures ScanMessage(d, c).creds == LeftBy(RecordsOf(d), c)
    decreases |d|
  {
    if ExtentOf(d).Some? {
      var r, more := RecordOf(d), d[ExtentOf(d).value.Total()..];
      RecordLeaves(d, c);
      match RecordFront(d, c)
      case Done(_) => assert RecordsOf(d) == [r];
      case Skip(n, c') =>
        MessageLeaves(more, c');
        LeftByConcat([r], RecordsOf(more), c);
    }
  }

  lemma {:induction false} AreaLeaves(area: seq<byte>, c: Creds)
    requires !ScanArea(area, c).ok
    ensures ScanArea(area, c).creds == LeftBy(RecordsIn(TlvsOf(area)), c)
    decreases |area|
  {
    if Readable(area) {
      var b, more := TlvOf(area), area[TlvSize(area)..];
      assert TlvsOf(area)[0] == b && TlvsOf(area)[1..] == TlvsOf(more);
      if b.Block? && b.tag == TLV_NDEF && !ScanMessage(b.value, c).ok {
        MessageLeaves(b.value, c);
      }
      match TlvFront(area, c)
      case Done(_) =>
      case Skip(n, c') =>
        AreaLeaves(more, c');
        LeftByConcat(RecordsAt(b), RecordsIn(TlvsOf(more)), c);
    }
  }

  /** A tag that is not answered leaves the struct as it was, or with what the last Wi-Fi record on it says. */
  lemma TagLeaves(pages: seq<byte>, pagesRead: nat, before: Creds)
    requires pagesRead * 4 <= |pages| && !ScanTag(pages, pagesRead, before).ok
    ensures ScanTag(pages, pagesRead, before).creds == LeftBy(TagRecords(pages, pagesRead), before)
  {
    if pagesRead >= 5 && pages[12] == CC_MAGIC {
      AreaLeaves(pages[16..pagesRead * 4], before);
    }
  }
}
