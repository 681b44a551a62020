/** Tags as the standards lay them out: attributes as in section 12 of the Wi-Fi Simple Configuration
    specification 2.0, records as in section 3.2 of NFC Forum NDEF 1.0, TLV blocks as in section 2.3 of NFC
    Forum Type 2 Tag Operation 1.1.  Each layer has an encoder, and whatever a layer's parser accepts is the
    encoding of exactly one item. */
module NfcEncoding {
  import opened Bytes
  import opened Codec
  import opened Nfc

  function Be16(n: nat): (s: seq<byte>)
    requires n < 0x1_0000
    ensures |s| == 2 && Word16(s[0], s[1]) == n
  {
    [n / 256, n % 256]
  }

  function Be32(n: nat): (s: seq<byte>)
    requires n < 0x1_0000_0000
    ensures |s| == 4 && Word32(s[0], s[1], s[2], s[3]) == n
  {
    var hi, lo := n / 0x1_0000, n % 0x1_0000;
    [hi / 256, hi % 256, lo / 256, lo % 256]
  }

  lemma Be16Of(hi: byte, lo: byte)
    ensures Word16(hi, lo) < 0x1_0000 && Be16(Word16(hi, lo)) == [hi, lo]
  {}

  lemma Be32Of(a: byte, b: byte, c: byte, d: byte)
    ensures Word32(a, b, c, d) < 0x1_0000_0000 && Be32(Word32(a, b, c, d)) == [a, b, c, d]
  {
    var hi, lo := Word16(a, b), Word16(c, d);
    Be16Of(a, b);
    Be16Of(c, d);
    Halves(hi, lo);
    assert Word32(a, b, c, d) == hi * 0x1_0000 + lo;
  }

  lemma Halves(hi: nat, lo: nat)
    requires lo < 0x1_0000
    ensures (hi * 0x1_0000 + lo) / 0x1_0000 == hi && (hi * 0x1_0000 + lo) % 0x1_0000 == lo
  {}

  // ---------------------------------------------------------------- attributes

  /** Octets that hold no attribute: too few for a header, or for the value that the header announces. */
  predicate Cut(tail: seq<byte>) {
    |tail| < 4 || 4 + Word16(tail[2], tail[3]) > |tail|
  }

  /** A list of attributes, any of which may be a credential containing another list, with whatever cut-off
      octets follow the last. */
  datatype Attrs =
    | End(tail: seq<byte>)
    | Plain(id: nat, value: seq<byte>, next: Attrs)
    | Credential(inner: Attrs, next: Attrs)

  /** Identifiers and lengths fit their fields, and only credentials use the container's identifier. */
  ghost predicate Encodable(t: Attrs)
    decreases t, 0
  {
    match t
    case End(tail) => Cut(tail)
    case Plain(id, value, next) =>
      id < 0x1_0000 && id != ATTR_CREDENTIAL && |value| < 0x1_0000 && Encodable(next)
    case Credential(inner, next) =>
      Encodable(inner) && |Encode(inner)| < 0x1_0000 && Encodable(next)
  }

  function Encode(t: Attrs): seq<byte>
    requires Encodable(t)
    decreases t, 1
  {
    match t
    case End(tail) => tail
    case Plain(id, value, next) => EncodeOne(id, value) + Encode(next)
    case Credential(inner, next) => EncodeOne(ATTR_CREDENTIAL, Encode(inner)) + Encode(next)
  }

  function EncodeOne(id: nat, value: seq<byte>): seq<byte>
    requires id < 0x1_0000 && |value| < 0x1_0000
  {
    Be16(id) + Be16(|value|) + value
  }

  /** The leaves of the tree, left to right; cut-off octets hold none. */
  function Leaves(t: Attrs): seq<Leaf> {
    match t
    case End(_) => []
    case Plain(id, value, next) => [Leaf(id, value)] + Leaves(next)
    case Credential(inner, next) => Leaves(inner) + Leaves(next)
  }

  lemma FrontAttribute(id: nat, value: seq<byte>, rest: seq<byte>)
    requires id < 0x1_0000 && |value| < 0x1_0000
    ensures var d := EncodeOne(id, value) + rest;
            && !Cut(d) && Word16(d[0], d[1]) == id && Word16(d[2], d[3]) == |value|
            && d[4..4 + |value|] == value && d[4 + |value|..] == rest
  {
    var d := EncodeOne(id, value) + rest;
    assert d[0..2] == Be16(id) && d[2..4] == Be16(|value|);
    assert d[0] == Be16(id)[0] && d[1] == Be16(id)[1] && d[2] == Be16(|value|)[0] && d[3] == Be16(|value|)[1];
  }

  /** Flattening what was encoded gives the leaves that went in, at any depth of nesting: what is cut off at
      the end of a container takes nothing outside of it along. */
  lemma {:induction false} FlattenEncode(t: Attrs)
    requires Encodable(t)
    ensures Flatten(Encode(t)) == Leaves(t)
  {
    match t
    case End(_) =>
    case Plain(id, value, next) =>
      FrontAttribute(id, value, Encode(next));
      FlattenEncode(next);
    case Credential(inner, next) =>
      FrontAttribute(ATTR_CREDENTIAL, Encode(inner), Encode(next));
      FlattenEncode(inner);
      FlattenEncode(next);
  }

  /** The tree that some octets hold. */
  function AttrsOf(data: seq<byte>): Attrs
    decreases |data|
  {
    if Cut(data) then End(data) else
      var id, len := Word16(data[0], data[1]), Word16(data[2], data[3]);
      var value, next := data[4..4 + len], AttrsOf(data[4 + len..]);
      if id == ATTR_CREDENTIAL then Credential(AttrsOf(value), next) else Plain(id, value, next)
  }

  /** Every octet string is the encoding of a tree ... */
  lemma {:induction false} EveryPayloadEncodes(data: seq<byte>)
    ensures Encodable(AttrsOf(data)) && Encode(AttrsOf(data)) == data
    decreases |data|
  {
    if !Cut(data) {
      var id, len := Word16(data[0], data[1]), Word16(data[2], data[3]);
      EveryPayloadEncodes(data[4 + len..]);
      EveryPayloadEncodes(data[4..4 + len]);
      FrontRebuilt(data);
    }
  }

  lemma FrontRebuilt(data: seq<byte>)
    requires !Cut(data)
    ensures var id, len := Word16(data[0], data[1]), Word16(data[2], data[3]);
            && id < 0x1_0000 && len < 0x1_0000
            && data == EncodeOne(id, data[4..4 + len]) + data[4 + len..]
  {
    Be16Of(data[0], data[1]);
    Be16Of(data[2], data[3]);
    var len := Word16(data[2], data[3]);
    assert data == [data[0], data[1]] + [data[2], data[3]] + data[4..4 + len] + data[4 + len..];
  }

  /** ... and of only one. */
  lemma {:induction false} EncodingUnique(t: Attrs)
    requires Encodable(t)
    ensures AttrsOf(Encode(t)) == t
  {
    match t
    case End(_) =>
    case Plain(id, value, next) =>
      FrontAttribute(id, value, Encode(next));
      EncodingUnique(next);
    case Credential(inner, next) =>
      FrontAttribute(ATTR_CREDENTIAL, Encode(inner), Encode(next));
      EncodingUnique(inner);
      EncodingUnique(next);
  }

  // ---------------------------------------------------------------- records

  /** A record as a writer chooses to lay it out. */
  datatype Record = Record(mb: bool, me: bool, cf: bool, short: bool, tnf: nat, kind: seq<byte>,
                           id: Option<seq<byte>>, payload: seq<byte>)

  ghost predicate EncodableRecord(r: Record) {
    && r.tnf < 8 && |r.kind| < 256 && (r.id.Some? ==> |r.id.value| < 256)
    && (r.short ==> |r.payload| < 256) && |r.payload| < 0x1_0000_0000
  }

  ghost predicate IsWifi(r: Record) {
    r.tnf == TNF_MEDIA_TYPE && r.kind == WIFI_TYPE
  }

  function Bit(b: bool, weight: nat): nat {
    if b then weight else 0
  }

  function Flags(r: Record): byte
    requires r.tnf < 8
  {
    Bit(r.mb, 128) + Bit(r.me, 64) + Bit(r.cf, 32) + Bit(r.short, 16) + Bit(r.id.Some?, 8) + r.tnf
  }

  function Id(r: Record): seq<byte> {
    if r.id.Some? then r.id.value else []
  }

  function Header(r: Record): seq<byte>
    requires EncodableRecord(r)
  {
    [Flags(r), |r.kind|]
    + (if r.short then [|r.payload|] else Be32(|r.payload|))
    + if r.id.Some? then [|r.id.value|] else []
  }

  function EncodeRecord(r: Record): seq<byte>
    requires EncodableRecord(r)
  {
    Header(r) + r.kind + Id(r) + r.payload
  }

  lemma FlagsRead(r: Record)
    requires r.tnf < 8
    ensures Tnf(Flags(r)) == r.tnf && FlagME(Flags(r)) == r.me && FlagSR(Flags(r)) == r.short
    ensures FlagIL(Flags(r)) == r.id.Some?
  {
    FlagArithmetic(Bit(r.mb, 1), Bit(r.me, 1), Bit(r.cf, 1), Bit(r.short, 1), Bit(r.id.Some?, 1), r.tnf);
  }

  lemma FlagArithmetic(a: nat, b: nat, c: nat, d: nat, e: nat, t: nat)
    requires a < 2 && b < 2 && c < 2 && d < 2 && e < 2 && t < 8
    ensures var f := 128 * a + 64 * b + 32 * c + 16 * d + 8 * e + t;
            f % 8 == t && f / 8 % 2 == e && f / 16 % 2 == d && f / 64 % 2 == b
  {
    var f := 128 * a + 64 * b + 32 * c + 16 * d + 8 * e + t;
    assert f / 8 == 2 * (8 * a + 4 * b + 2 * c + d) + e;
    assert f / 16 == 2 * (4 * a + 2 * b + c) + d;
    assert f / 64 == 2 * a + b;
  }

  function ExtentOfRecord(r: Record): Extent
    requires EncodableRecord(r)
  {
    Extent(|Header(r)|, |r.kind|, |Id(r)|, |r.payload|)
  }

  lemma MeasuresRecord(r: Record, rest: seq<byte>)
    requires EncodableRecord(r)
    ensures ExtentOf(EncodeRecord(r) + rest) == Some(ExtentOfRecord(r))
    ensures ExtentOfRecord(r).Total() == |EncodeRecord(r)|
  {
    FlagsRead(r);
    var h, d := Header(r), EncodeRecord(r) + rest;
    assert forall i :: 0 <= i < |h| ==> d[i] == h[i];
    if !r.short {
      assert h[2..6] == Be32(|r.payload|);
      assert h[2] == Be32(|r.payload|)[0] && h[3] == Be32(|r.payload|)[1];
      assert h[4] == Be32(|r.payload|)[2] && h[5] == Be32(|r.payload|)[3];
    }
  }

  lemma RecordSlices(h: seq<byte>, kind: seq<byte>, id: seq<byte>, payload: seq<byte>)
    ensures var d := h + kind + id + payload;
            d[|h|..|h| + |kind|] == kind && d[|d| - |payload|..|d|] == payload && (h != [] ==> d[0] == h[0])
  {}

  /** The record parser gets the payload of a Wi-Fi record and refuses every other. */
  lemma FindsPayload(r: Record)
    requires EncodableRecord(r)
    ensures RecordPayload(EncodeRecord(r)) == if IsWifi(r) then Some(r.payload) else None
  {
    var d, x := EncodeRecord(r), ExtentOfRecord(r);
    MeasuresRecord(r, []);
    assert d + [] == d && d[..x.Total()] == d;
    HeadersAgree(d);
    FlagsRead(r);
    RecordSlices(Header(r), r.kind, Id(r), r.payload);
  }

  /** The record at the front of some octets. */
  function RecordOf(data: seq<byte>): Record
    requires ExtentOf(data).Some?
  {
    var f, x := data[0], ExtentOf(data).value;
    var idAt, end := x.header + x.typeLen, x.Total();
    Record(f / 128 == 1, FlagME(f), f / 32 % 2 == 1, FlagSR(f), Tnf(f), data[x.header..idAt],
           if FlagIL(f) then Some(data[idAt..idAt + x.idLen]) else None, data[end - x.payloadLen..end])
  }

  lemma FlagsRebuilt(data: seq<byte>)
    requires ExtentOf(data).Some?
    ensures RecordOf(data).tnf < 8 && Flags(RecordOf(data)) == data[0]
  {
    FlagsOfBits(data[0], RecordOf(data));
  }

  lemma FlagsOfBits(f: byte, r: Record)
    requires r.mb == (f / 128 == 1) && r.me == FlagME(f) && r.cf == (f / 32 % 2 == 1) && r.short == FlagSR(f)
    requires r.id.Some? == FlagIL(f) && r.tnf == Tnf(f)
    ensures r.tnf < 8 && Flags(r) == f
  {
    OctetInBits(f);
    BitIs(f / 128, 128);
    BitIs(f / 64 % 2, 64);
    BitIs(f / 32 % 2, 32);
    BitIs(f / 16 % 2, 16);
    BitIs(f / 8 % 2, 8);
  }

  lemma BitIs(x: nat, weight: nat)
    requires x < 2
    ensures Bit(x == 1, weight) == weight * x
  {}

  lemma OctetInBits(f: byte)
    ensures f / 128 < 2
    ensures f == 128 * (f / 128) + 64 * (f / 64 % 2) + 32 * (f / 32 % 2) + 16 * (f / 16 % 2) + 8 * (f / 8 % 2) + f % 8
  {
    TwoHalves(f, 64);
    TwoHalves(f, 32);
    TwoHalves(f, 16);
    TwoHalves(f, 8);
    Eighths(f);
  }

  lemma Eighths(f: byte)
    ensures f / 128 < 2 && f == 8 * (f / 8) + f % 8
  {}

  lemma TwoHalves(f: byte, m: nat)
    requires m == 8 || m == 16 || m == 32 || m == 64
    ensures f / m == 2 * (f / (2 * m)) + f / m % 2
  {
    var q, r := f / (2 * m), f % (2 * m);
    if r < m {
      assert f / m == 2 * q;
    } else {
      assert f / m == 2 * q + 1;
    }
  }

  /** Every record that fits is the encoding of a record ... */
  lemma EveryRecordEncodes(data: seq<byte>)
    requires ExtentOf(data).Some?
    ensures EncodableRecord(RecordOf(data)) && data[..ExtentOf(data).value.Total()] == EncodeRecord(RecordOf(data))
  {
    var x, r := ExtentOf(data).value, RecordOf(data);
    FlagsRebuilt(data);
    HeaderRebuilt(data);
    var idAt := x.header + x.typeLen;
    FourSlices(data, x.header, idAt, idAt + x.idLen, x.Total());
    assert Id(r) == data[idAt..idAt + x.idLen];
  }

  lemma FourSlices(d: seq<byte>, i: nat, j: nat, k: nat, n: nat)
    requires i <= j <= k <= n <= |d|
    ensures d[..n] == d[..i] + d[i..j] + d[j..k] + d[k..n]
  {}

  lemma HeaderRebuilt(data: seq<byte>)
    requires ExtentOf(data).Some? && Flags(RecordOf(data)) == data[0]
    ensures EncodableRecord(RecordOf(data)) && Header(RecordOf(data)) == data[..ExtentOf(data).value.header]
  {
    var x, r := ExtentOf(data).value, RecordOf(data);
    assert |r.kind| == x.typeLen == data[1] && |r.payload| == x.payloadLen;
    if r.short {
      assert data[..x.header] == [data[0], data[1]] + [data[2]] + data[3..x.header];
    } else {
      Be32Of(data[2], data[3], data[4], data[5]);
      assert data[..x.header] == [data[0], data[1]] + [data[2], data[3], data[4], data[5]] + data[6..x.header];
    }
  }

  /** ... and of only one. */
  lemma RecordUnique(r: Record, rest: seq<byte>)
    requires EncodableRecord(r)
    ensures ExtentOf(EncodeRecord(r) + rest).Some? && RecordOf(EncodeRecord(r) + rest) == r
  {
    MeasuresRecord(r, rest);
    FlagsRead(r);
    SpareFlagsRead(r);
    Slices(Header(r), r.kind, Id(r), r.payload, rest);
  }

  lemma Slices(h: seq<byte>, kind: seq<byte>, id: seq<byte>, payload: seq<byte>, rest: seq<byte>)
    ensures var d, i, j, k := h + kind + id + payload + rest, |h|, |h| + |kind|, |h| + |kind| + |id|;
            d[i..j] == kind && d[j..k] == id && d[k..k + |payload|] == payload && (h != [] ==> d[0] == h[0])
  {}

  lemma SpareFlagsRead(r: Record)
    requires r.tnf < 8
    ensures (Flags(r) / 128 == 1) == r.mb && (Flags(r) / 32 % 2 == 1) == r.cf
  {
    var low := Bit(r.me, 64) + Bit(r.cf, 32) + Bit(r.short, 16) + Bit(r.id.Some?, 8) + r.tnf;
    assert Flags(r) == Bit(r.mb, 128) + low && low < 128;
  }

  // ---------------------------------------------------------------- TLV blocks

  /** A NULL block, or a block with a length of one octet or three. */
  datatype Tlv = Null | Block(tag: byte, long: bool, value: seq<byte>)

  ghost predicate EncodableTlv(b: Tlv) {
    b.Block? ==>
      && b.tag != TLV_NULL && b.tag != TLV_TERMINATOR
      && |b.value| < 0x1_0000 && (!b.long ==> |b.value| < 0xFF)
  }

  function EncodeTlv(b: Tlv): seq<byte>
    requires EncodableTlv(b)
  {
    match b
    case Null => [TLV_NULL]
    case Block(tag, long, value) => [tag] + (if long then [0xFF] + Be16(|value|) else [|value|]) + value
  }

  lemma MeasuresTlv(b: Tlv, rest: seq<byte>)
    requires b.Block? && EncodableTlv(b)
    ensures var start, d := if b.long then 4 else 2, EncodeTlv(b) + rest;
            TlvExtent(d) == Some((start, |b.value|)) && d[0] == b.tag
            && d[start..start + |b.value|] == b.value && d[start + |b.value|..] == rest
  {
    var d := EncodeTlv(b) + rest;
    if b.long {
      assert d[2] == Be16(|b.value|)[0] && d[3] == Be16(|b.value|)[1];
    }
  }

  /** A block can be read at the front: not the terminator, and it fits. */
  predicate Readable(data: seq<byte>) {
    data != [] && data[0] != TLV_TERMINATOR && (data[0] == TLV_NULL || TlvExtent(data).Some?)
  }

  function TlvOf(data: seq<byte>): Tlv
    requires Readable(data)
  {
    if data[0] == TLV_NULL then Null else
      var (start, len) := TlvExtent(data).value;
      Block(data[0], data[1] == 0xFF, data[start..start + len])
  }

  function TlvSize(data: seq<byte>): (n: nat)
    requires Readable(data)
    ensures 1 <= n <= |data|
  {
    if data[0] == TLV_NULL then 1 else TlvExtent(data).value.0 + TlvExtent(data).value.1
  }

  /** Every block that can be read is the encoding of a block ... */
  lemma EveryTlvEncodes(data: seq<byte>)
    requires Readable(data)
    ensures EncodableTlv(TlvOf(data)) && data[..TlvSize(data)] == EncodeTlv(TlvOf(data))
  {
    if data[0] == TLV_NULL {
      assert data[..1] == [TLV_NULL];
    } else {
      var (start, len) := TlvExtent(data).value;
      if data[1] == 0xFF {
        Be16Of(data[2], data[3]);
        assert data[..start + len] == [data[0]] + ([0xFF] + [data[2], data[3]]) + data[start..start + len];
      } else {
        assert data[..start + len] == [data[0]] + [data[1]] + data[start..start + len];
      }
    }
  }

  /** ... and of only one. */
  lemma TlvUnique(b: Tlv, rest: seq<byte>)
    requires EncodableTlv(b)
    ensures var d := EncodeTlv(b) + rest;
            Readable(d) && TlvOf(d) == b && TlvSize(d) == |EncodeTlv(b)| && d[|EncodeTlv(b)|..] == rest
  {
    var d := EncodeTlv(b) + rest;
    if b.Null? {
      assert d[1..] == rest;
    } else {
      MeasuresTlv(b, rest);
    }
  }
}
