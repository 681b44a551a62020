/** The tag parsers as they run: cursors over the tag's octets, results written into the credentials
    struct in place. */
module NfcBuffers {
  import opened Bytes
  import opened Codec
  import opened CodecBuffers
  import opened Nfc
  import opened NfcWidth

  /** memcpy of a value and its terminator. */
  method Store(buf: array<byte>, value: seq<byte>)
    requires |value| < buf.Length
    modifies buf
    ensures CStr(buf[..]) == CStr(value)
  {
    forall i | 0 <= i < |value| { buf[i] := value[i]; }
    buf[|value|] := 0;
    assert buf[..|value|] == value;
    CStrStored(value, buf[..]);
  }

  /** The switch on one attribute that is not a container. */
  method ApplyLeaf(l: Leaf, creds: CredsBuffer, foundSsid: bool) returns (found: bool)
    requires creds.Valid()
    modifies creds, creds.ssid, creds.password
    ensures creds.Valid()
    ensures Found(creds.Value(), found) == Apply(Found(old(creds.Value()), foundSsid), l)
  {
    found := foundSsid;
    if l.id == ATTR_SSID {
      if |l.value| > 0 && |l.value| <= SSID_MAX {
        Store(creds.ssid, l.value);
        found := true;
      }
    } else if l.id == ATTR_AUTH_TYPE {
      if |l.value| == 2 {
        creds.security := SecurityOfAuth(Word16(l.value[0], l.value[1]));
      }
    } else if l.id == ATTR_NET_KEY {
      if |l.value| > 0 && |l.value| <= PASS_MAX {
        Store(creds.password, l.value);
      }
    }
  }

  /** One attribute: a container recurses, anything else is a leaf. */
  method ParseAttribute(id: nat, value: seq<byte>, creds: CredsBuffer, foundSsid: bool) returns (found: bool)
    requires creds.Valid()
    modifies creds, creds.ssid, creds.password
    ensures creds.Valid()
    ensures Found(creds.Value(), found) == Fold(Found(old(creds.Value()), foundSsid), OneAttribute(id, value))
    decreases |value|, 2
  {
    if id == ATTR_CREDENTIAL {
      found := ParseWscAttributes(value, creds, foundSsid);
    } else {
      found := ApplyLeaf(Leaf(id, value), creds, foundSsid);
    }
  }

  /** The attribute at the cursor; `done` when it does not fit. */
  method NextAttribute(data: seq<byte>, pos: nat, creds: CredsBuffer, foundSsid: bool)
    returns (done: bool, found: bool, end: nat)
    requires pos + 4 <= |data| && creds.Valid()
    modifies creds, creds.ssid, creds.password
    ensures creds.Valid() && pos < end <= |data|
    ensures Fold(Found(old(creds.Value()), foundSsid), Flatten(data[pos..])) ==
            if done then Found(creds.Value(), found) else Fold(Found(creds.Value(), found), Flatten(data[end..]))
    decreases |data|, 0
  {
    var attrId := Word16(data[pos], data[pos + 1]);
    var attrLen := Word16(data[pos + 2], data[pos + 3]);
    ghost var before := Found(creds.Value(), foundSsid);
    FoldStep(before, data, pos);
    if pos + 4 + attrLen > |data| {
      return true, foundSsid, |data|;
    }
    end := pos + 4 + attrLen;
    var value := data[pos + 4..end];
    ghost var one, rest := OneAttribute(attrId, value), Flatten(data[end..]);
    assert Fold(before, Flatten(data[pos..])) == Fold(Fold(before, one), rest);
    found := ParseAttribute(attrId, value, creds, foundSsid);
    assert Found(creds.Value(), found) == Fold(before, one);
    done := false;
  }

  /** The recursive attribute parser is a left fold over the flattened leaves. */
  method ParseWscAttributes(data: seq<byte>, creds: CredsBuffer, foundSsid: bool) returns (found: bool)
    requires creds.Valid()
    modifies creds, creds.ssid, creds.password
    ensures creds.Valid()
    ensures Found(creds.Value(), found) == Fold(Found(old(creds.Value()), foundSsid), Flatten(data))
    decreases |data|, 1
  {
    found := foundSsid;
    ghost var result := Fold(Found(creds.Value(), foundSsid), Flatten(data));
    var pos := 0;
    assert data[pos..] == data;
    while pos + 4 <= |data|
      invariant 0 <= pos <= |data| && creds.Valid()
      invariant result == Fold(Found(creds.Value(), found), Flatten(data[pos..]))
    {
      var done, f, end := NextAttribute(data, pos, creds, found);
      found := f;
      if done {
        return found;
      }
      pos := end;
    }
    assert Flatten(data[pos..]) == [];
  }

  lemma FoldStep(f: Found, data: seq<byte>, pos: nat)
    requires pos + 4 <= |data|
    ensures var id, len := Word16(data[pos], data[pos + 1]), Word16(data[pos + 2], data[pos + 3]);
            Fold(f, Flatten(data[pos..])) ==
            if pos + 4 + len > |data| then f
            else Fold(Fold(f, OneAttribute(id, data[pos + 4..pos + 4 + len])), Flatten(data[pos + 4 + len..]))
  {
    var d, id, len := data[pos..], Word16(data[pos], data[pos + 1]), Word16(data[pos + 2], data[pos + 3]);
    if pos + 4 + len <= |data| {
      assert d[4..4 + len] == data[pos + 4..pos + 4 + len];
      assert d[4 + len..] == data[pos + 4 + len..];
      FoldConcat(f, OneAttribute(id, d[4..4 + len]), Flatten(d[4 + len..]));
    }
  }

  /** The record parser's own reading of the header: where it takes the payload to be.  The last sum is as wide
      as a size. */
  method FindPayload(data: seq<byte>) returns (span: Option<(nat, nat)>)
    ensures span == PayloadSpan(data)
  {
    if |data| < 3 || Tnf(data[0]) != TNF_MEDIA_TYPE {
      return None;
    }
    var typeLen, pos := data[1], 2;
    var payloadLen;
    if FlagSR(data[0]) {
      payloadLen := data[pos];
      pos := pos + 1;
    } else {
      if pos + 4 > |data| {
        return None;
      }
      payloadLen := Word32(data[pos], data[pos + 1], data[pos + 2], data[pos + 3]);
      pos := pos + 4;
    }
    var idLen := 0;
    if FlagIL(data[0]) {
      if pos >= |data| {
        return None;
      }
      idLen := data[pos];
      pos := pos + 1;
    }
    if pos + typeLen > |data| || data[pos..pos + typeLen] != WIFI_TYPE {
      return None;
    }
    pos := pos + typeLen + idLen;
    return if Size(pos + payloadLen) > |data| then None else Some((pos, payloadLen));
  }

  /** A record whose payload does not wrap: its payload is inside it. */
  method ParseNdefRecord(data: seq<byte>, creds: CredsBuffer) returns (ok: bool)
    requires |data| < MESSAGE_LIMIT && !PayloadWraps(data) && creds.Valid()
    modifies creds, creds.ssid, creds.password
    ensures creds.Valid()
    ensures Scan(ok, creds.Value()) == ScanRecord(data, old(creds.Value()))
  {
    var span := FindPayload(data);
    SpanExactlyWhen(data);
    if span.None? {
      return false;
    }
    creds.Clear();
    var (start, len) := span.value;
    ok := ParseWscAttributes(data[start..start + len], creds, false);
  }

  /** One turn of the message loop at a record that does not wrap: the answer, or where the next record
      starts. */
  method NextRecord(data: seq<byte>, pos: nat, creds: CredsBuffer) returns (done: bool, ok: bool, end: nat)
    requires pos < |data| < MESSAGE_LIMIT && !Astray(data[pos..], |data|) && creds.Valid()
    modifies creds, creds.ssid, creds.password
    ensures creds.Valid() && pos < end <= |data|
    ensures ScanMessage(data[pos..], old(creds.Value())) ==
            if done then Scan(ok, creds.Value()) else ScanMessage(data[end..], creds.Value())
    ensures !done ==> !Astray(data[end..], |data|)
  {
    done, ok, end := true, false, |data|;
    var n := Measure(data, pos);
    PassedExactlyWhen(data[pos..], |data|);
    if n.None? {
      return;
    }
    end := pos + n.value;
    assert data[pos..][..n.value] == data[pos..end] && data[pos..][n.value..] == data[end..];
    FittingPayloadDoesNotWrap(data[pos..]);
    ghost var f := RecordFront(data[pos..], creds.Value());
    AstrayAfter(data[pos..], |data|, creds.Value(), f);
    ok := ParseNdefRecord(data[pos..end], creds);
    done := ok || FlagME(data[pos]);
  }

  /** The message loop over every message in which the natural reading comes to no record that wraps: within
      bounds and terminating. */
  method ParseNdefMessage(data: seq<byte>, creds: CredsBuffer) returns (ok: bool)
    requires |data| < MESSAGE_LIMIT && !Astray(data, |data|) && creds.Valid()
    modifies creds, creds.ssid, creds.password
    ensures creds.Valid()
    ensures Scan(ok, creds.Value()) == ScanMessage(data, old(creds.Value()))
  {
    ghost var result := ScanMessage(data, creds.Value());
    var pos := 0;
    assert data[pos..] == data;
    while pos < |data|
      invariant 0 <= pos <= |data| && creds.Valid()
      invariant !Astray(data[pos..], |data|)
      invariant result == ScanMessage(data[pos..], creds.Value())
    {
      var done, found, end := NextRecord(data, pos, creds);
      if done {
        return found;
      }
      pos := end;
    }
    assert data[pos..] == [];
    return false;
  }

  /** The header reading of the message loop and its check: the record's length if it passes.  Both sums are
      as wide as a size. */
  method Measure(data: seq<byte>, pos: nat) returns (n: Option<nat>)
    requires pos < |data|
    ensures n == Passed(data[pos..], |data|)
  {
    if pos + 3 > |data| {
      return None;
    }
    var typeLen: nat, idLen: nat := data[pos + 1], 0;
    var hdrSize, payloadLen := 2, 0;
    if FlagSR(data[pos]) {
      payloadLen := data[pos + 2];
      hdrSize := hdrSize + 1;
    } else {
      if pos + 6 > |data| {
        return None;
      }
      payloadLen := Word32(data[pos + 2], data[pos + 3], data[pos + 4], data[pos + 5]);
      hdrSize := hdrSize + 4;
    }
    if FlagIL(data[pos]) {
      if pos + hdrSize >= |data| {
        return None;
      }
      idLen := data[pos + hdrSize];
      hdrSize := hdrSize + 1;
    }
    assert HeaderOf(data[pos..]) == Some(Extent(hdrSize, typeLen, idLen, payloadLen));
    var recordTotal := Size(hdrSize + typeLen + idLen + payloadLen);
    return if Size(pos + recordTotal) > |data| then None else Some(recordTotal);
  }

  /** The length field of a TLV: one octet, or three when the first is 0xFF. */
  method TlvLength(area: seq<byte>, at: nat) returns (x: Option<(nat, nat)>)
    requires at < |area|
    ensures x == TlvExtent(area[at..])
  {
    var pos := at + 1;
    if pos >= |area| {
      return None;
    }
    var tlvLen;
    if area[pos] == 0xFF {
      if pos + 3 > |area| {
        return None;
      }
      tlvLen := Word16(area[pos + 1], area[pos + 2]);
      pos := pos + 3;
    } else {
      tlvLen := area[pos];
      pos := pos + 1;
    }
    return if pos + tlvLen > |area| then None else Some((pos - at, tlvLen));
  }

  /** The value of a block: an NDEF message is parsed, anything else is not looked at. */
  method TryBlock(tag: byte, value: seq<byte>, creds: CredsBuffer) returns (ok: bool)
    requires tag == TLV_NDEF ==> |value| < MESSAGE_LIMIT && !Astray(value, |value|)
    requires creds.Valid()
    modifies creds, creds.ssid, creds.password
    ensures creds.Valid()
    ensures Scan(ok, creds.Value()) ==
            if tag == TLV_NDEF then ScanMessage(value, old(creds.Value())) else Scan(false, old(creds.Value()))
  {
    ok := false;
    if tag == TLV_NDEF {
      ok := ParseNdefMessage(value, creds);
    }
  }

  lemma {:induction false} BlockFront(d: seq<byte>, c: Creds, start: nat, len: nat, m: Scan)
    requires d != [] && d[0] != TLV_NULL && d[0] != TLV_TERMINATOR && TlvExtent(d) == Some((start, len))
    requires m == if d[0] == TLV_NDEF then ScanMessage(d[start..start + len], c) else Scan(false, c)
    ensures TlvFront(d, c) == if m.ok then Done(m) else Skip(start + len, m.creds)
  {}

  lemma {:induction false} MessageOfBlock(d: seq<byte>, start: nat, len: nat)
    requires d != [] && !AreaAstray(d) && TlvExtent(d) == Some((start, len)) && d[0] == TLV_NDEF
    ensures len < MESSAGE_LIMIT && !Astray(d[start..start + len], len)
  {}

  /** One turn of the TLV loop: the answer, or where the next block starts. */
  method NextTlv(area: seq<byte>, pos: nat, creds: CredsBuffer) returns (done: bool, ok: bool, end: nat)
    requires pos < |area| && !AreaAstray(area[pos..]) && creds.Valid()
    modifies creds, creds.ssid, creds.password
    ensures creds.Valid() && pos < end <= |area|
    ensures TlvFront(area[pos..], old(creds.Value())) ==
            if done then Done(Scan(ok, creds.Value())) else Skip(end - pos, creds.Value())
  {
    done, ok, end := false, false, pos + 1;
    if area[pos] == TLV_NULL {
      return;
    }
    done := true;
    if area[pos] == TLV_TERMINATOR {
      return;
    }
    var x := TlvLength(area, pos);
    if x.None? {
      return;
    }
    done, ok, end := NextBlock(area, pos, x.value.0, x.value.1, creds);
  }

  /** A block that is not NULL, with its value where TlvLength found it. */
  method NextBlock(area: seq<byte>, pos: nat, offset: nat, len: nat, creds: CredsBuffer) returns (done: bool, ok: bool, end: nat)
    requires pos < |area| && area[pos] != TLV_NULL && area[pos] != TLV_TERMINATOR
    requires TlvExtent(area[pos..]) == Some((offset, len)) && !AreaAstray(area[pos..]) && creds.Valid()
    modifies creds, creds.ssid, creds.password
    ensures creds.Valid() && pos < end <= |area|
    ensures TlvFront(area[pos..], old(creds.Value())) ==
            if done then Done(Scan(ok, creds.Value())) else Skip(end - pos, creds.Value())
  {
    ghost var d, c := area[pos..], creds.Value();
    var start := pos + offset;
    end := start + len;
    var value := area[start..end];
    assert value == d[offset..offset + len];
    if area[pos] == TLV_NDEF {
      MessageOfBlock(d, offset, len);
    }
    ghost var m := if area[pos] == TLV_NDEF then ScanMessage(value, c) else Scan(false, c);
    BlockFront(d, c, offset, len, m);
    ok := TryBlock(area[pos], value, creds);
    assert Scan(ok, creds.Value()) == m;
    done := ok;
  }

  /** The TLV loop over the tag's data pages. */
  method ParseArea(area: seq<byte>, creds: CredsBuffer) returns (ok: bool)
    requires !AreaAstray(area) && creds.Valid()
    modifies creds, creds.ssid, creds.password
    ensures creds.Valid()
    ensures Scan(ok, creds.Value()) == ScanArea(area, old(creds.Value()))
  {
    ghost var result := ScanArea(area, creds.Value());
    var pos := 0;
    assert area[pos..] == area;
    while pos < |area|
      invariant 0 <= pos <= |area| && creds.Valid()
      invariant !AreaAstray(area[pos..])
      invariant result == ScanArea(area[pos..], creds.Value())
    {
      ghost var c, d := creds.Value(), area[pos..];
      var done, found, end := NextTlv(area, pos, creds);
      AreaAstrayAfter(d, c, TlvFront(d, c));
      assert area[end..] == d[end - pos..];
      if done {
        return found;
      }
      pos := end;
    }
    assert area[pos..] == [];
    return false;
  }

  /** The entry point: credentials are found exactly as the pure reading of the tag says, and the struct
      is left exactly as it says. */
  method ParseWifiTag(pages: seq<byte>, pagesRead: nat, creds: CredsBuffer) returns (ok: bool)
    requires pagesRead * 4 <= |pages| && !TagAstray(pages, pagesRead) && creds.Valid()
    modifies creds, creds.ssid, creds.password
    ensures creds.Valid()
    ensures Scan(ok, creds.Value()) == ScanTag(pages, pagesRead, old(creds.Value()))
  {
    if pagesRead < 5 || pages[12] != CC_MAGIC {
      return false;
    }
    ok := ParseArea(pages[16..pagesRead * 4], creds);
  }
}
