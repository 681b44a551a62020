/** Reading Wi-Fi credentials off a Type 2 tag: TLV blocks, inside them NDEF records, inside those Wi-Fi
    Simple Configuration attributes.  What each layer finds, as functions on octet strings. */
module Nfc {
  import opened Bytes
  import opened Codec

  function Word16(hi: byte, lo: byte): nat {
    hi * 256 + lo
  }

  function Word32(a: byte, b: byte, c: byte, d: byte): nat {
    a * 0x100_0000 + b * 0x1_0000 + c * 256 + d
  }

  // ---------------------------------------------------------------- WSC attributes

  const ATTR_CREDENTIAL := 0x100E
  const ATTR_SSID := 0x1045
  const ATTR_AUTH_TYPE := 0x1003
  const ATTR_NET_KEY := 0x1027

  const AUTH_OPEN := 0x0001
  const AUTH_SHARED := 0x0004

  /** An attribute that is not a container. */
  datatype Leaf = Leaf(id: nat, value: seq<byte>)

  /** The leaves in order, credential containers opened up.  A truncated attribute ends its own container
      and nothing else. */
  function Flatten(data: seq<byte>): seq<Leaf>
    decreases |data|, 0
  {
    if |data| < 4 then [] else
      var id, len := Word16(data[0], data[1]), Word16(data[2], data[3]);
      if 4 + len > |data| then []
      else OneAttribute(id, data[4..4 + len]) + Flatten(data[4 + len..])
  }

  function OneAttribute(id: nat, value: seq<byte>): seq<Leaf>
    decreases |value|, 1
  {
    if id == ATTR_CREDENTIAL then Flatten(value) else [Leaf(id, value)]
  }

  /** The credentials so far and whether an SSID has been seen. */
  datatype Found = Found(creds: Creds, ssid: bool)

  predicate AcceptsSsid(l: Leaf) {
    l.id == ATTR_SSID && 1 <= |l.value| <= SSID_MAX
  }

  predicate AcceptsAuth(l: Leaf) {
    l.id == ATTR_AUTH_TYPE && |l.value| == 2
  }

  predicate AcceptsKey(l: Leaf) {
    l.id == ATTR_NET_KEY && 1 <= |l.value| <= PASS_MAX
  }

  function SecurityOfAuth(auth: nat): byte {
    if auth == AUTH_OPEN then SEC_OPEN
    else if auth == AUTH_SHARED then SEC_WEP
    else SEC_WPA
  }

  function Apply(f: Found, l: Leaf): Found {
    if AcceptsSsid(l) then Found(f.creds.(ssid := CStr(l.value)), true)
    else if AcceptsAuth(l) then f.(creds := f.creds.(security := SecurityOfAuth(Word16(l.value[0], l.value[1]))))
    else if AcceptsKey(l) then f.(creds := f.creds.(password := CStr(l.value)))
    else f
  }

  function Fold(f: Found, ls: seq<Leaf>): Found
    decreases |ls|
  {
    if ls == [] then f else Fold(Apply(f, ls[0]), ls[1..])
  }

  lemma {:induction false} FoldConcat(f: Found, a: seq<Leaf>, b: seq<Leaf>)
    ensures Fold(f, a + b) == Fold(Fold(f, a), b)
    decreases |a|
  {
    if a == [] {
      assert a + b == b;
    } else {
      assert (a + b)[1..] == a[1..] + b;
      FoldConcat(Apply(f, a[0]), a[1..], b);
    }
  }

  /** An SSID is found exactly when some leaf holds one of acceptable length. */
  lemma {:induction false} FoundExactlyWhen(f: Found, ls: seq<Leaf>)
    ensures Fold(f, ls).ssid <==> f.ssid || exists l :: l in ls && AcceptsSsid(l)
    decreases |ls|
  {
    if ls != [] {
      FoundExactlyWhen(Apply(f, ls[0]), ls[1..]);
      assert forall l :: l in ls <==> l == ls[0] || l in ls[1..];
    }
  }

  /** Of each kind the last accepted leaf wins; without one the field keeps its value. */
  lemma {:induction false} LastSsidWins(f: Found, ls: seq<Leaf>, k: nat)
    requires k <= |ls| && forall j :: k <= j < |ls| ==> !AcceptsSsid(ls[j])
    ensures k > 0 && AcceptsSsid(ls[k - 1]) ==> Fold(f, ls).creds.ssid == CStr(ls[k - 1].value)
    ensures k == 0 ==> Fold(f, ls).creds.ssid == f.creds.ssid
    decreases |ls|
  {
    if ls != [] {
      LastSsidWins(Apply(f, ls[0]), ls[1..], if k == 0 then 0 else k - 1);
    }
  }

  lemma {:induction false} LastAuthWins(f: Found, ls: seq<Leaf>, k: nat)
    requires k <= |ls| && forall j :: k <= j < |ls| ==> !AcceptsAuth(ls[j])
    ensures k > 0 && AcceptsAuth(ls[k - 1]) ==>
              Fold(f, ls).creds.security == SecurityOfAuth(Word16(ls[k - 1].value[0], ls[k - 1].value[1]))
    ensures k == 0 ==> Fold(f, ls).creds.security == f.creds.security
    decreases |ls|
  {
    if ls != [] {
      LastAuthWins(Apply(f, ls[0]), ls[1..], if k == 0 then 0 else k - 1);
    }
  }

  lemma {:induction false} LastKeyWins(f: Found, ls: seq<Leaf>, k: nat)
    requires k <= |ls| && forall j :: k <= j < |ls| ==> !AcceptsKey(ls[j])
    ensures k > 0 && AcceptsKey(ls[k - 1]) ==> Fold(f, ls).creds.password == CStr(ls[k - 1].value)
    ensures k == 0 ==> Fold(f, ls).creds.password == f.creds.password
    decreases |ls|
  {
    if ls != [] {
      LastKeyWins(Apply(f, ls[0]), ls[1..], if k == 0 then 0 else k - 1);
    }
  }

  // ---------------------------------------------------------------- NDEF records

  const TNF_MEDIA_TYPE := 2

  const WIFI_TYPE: seq<byte> := Ascii("application/vnd.wfa.wsc")

  predicate FlagME(flags: byte) { flags / 64 % 2 == 1 }
  predicate FlagSR(flags: byte) { flags / 16 % 2 == 1 }
  predicate FlagIL(flags: byte) { flags / 8 % 2 == 1 }
  function Tnf(flags: byte): nat { flags % 8 }

  /** A record as the message loop measures it. */
  datatype Extent = Extent(header: nat, typeLen: nat, idLen: nat, payloadLen: nat) {
    function Total(): nat {
      header + typeLen + idLen + payloadLen
    }
  }

  /** What the header at the front announces, whether or not that much is there; None if the header itself
      is cut off. */
  function HeaderOf(data: seq<byte>): (x: Option<Extent>)
    ensures x.Some? ==> 3 <= x.value.header <= 7 && x.value.header <= |data|
    ensures x.Some? ==> x.value.typeLen < 256 && x.value.idLen < 256 && x.value.payloadLen < 0x1_0000_0000
  {
    if |data| < 3 then None else
      var sr, il := FlagSR(data[0]), FlagIL(data[0]);
      if !sr && |data| < 6 then None else
        var payloadLen := if sr then data[2] else Word32(data[2], data[3], data[4], data[5]);
        var fixed := if sr then 3 else 6;
        if il && fixed >= |data| then None else
          Some(Extent(if il then fixed + 1 else fixed, data[1], if il then data[fixed] else 0, payloadLen))
  }

  /** The extent of the record at the front, or None if it does not fit in what is left. */
  function ExtentOf(data: seq<byte>): (x: Option<Extent>)
    ensures x.Some? ==> 3 <= x.value.Total() <= |data|
  {
    var x := HeaderOf(data);
    if x.None? || x.value.Total() > |data| then None else x
  }

  /** Where the payload of a Wi-Fi record starts and how long it says it is, as the record parser reads the
      header on its own. */
  function WifiSpan(data: seq<byte>): (s: Option<(nat, nat)>)
    ensures s.Some? ==> 26 <= s.value.0 <= 285 && s.value.1 < 0x1_0000_0000
  {
    if |data| < 3 || Tnf(data[0]) != TNF_MEDIA_TYPE then None else
      var sr, il, typeLen := FlagSR(data[0]), FlagIL(data[0]), data[1];
      if !sr && 2 + 4 > |data| then None else
        var payloadLen := if sr then data[2] else Word32(data[2], data[3], data[4], data[5]);
        var pos := if sr then 3 else 6;
        if il && pos >= |data| then None else
          var idLen := if il then data[pos] else 0;
          var pos' := if il then pos + 1 else pos;
          if pos' + typeLen > |data| || data[pos'..pos' + typeLen] != WIFI_TYPE then None else
            Some((pos' + typeLen + idLen, payloadLen))
  }

  /** The payload of a Wi-Fi record, when all of it is there. */
  function RecordPayload(data: seq<byte>): Option<seq<byte>> {
    var s := WifiSpan(data);
    if s.None? || s.value.0 + s.value.1 > |data| then None
    else Some(data[s.value.0..s.value.0 + s.value.1])
  }

  /** A record cut out as measured still measures the same. */
  lemma CutOutMeasures(data: seq<byte>)
    requires ExtentOf(data).Some?
    ensures ExtentOf(data[..ExtentOf(data).value.Total()]) == ExtentOf(data)
  {}

  lemma PayloadAtEnd(rec: seq<byte>)
    requires ExtentOf(rec).Some? && ExtentOf(rec).value.Total() == |rec|
    ensures var x := ExtentOf(rec).value;
            RecordPayload(rec) ==
            if Tnf(rec[0]) == TNF_MEDIA_TYPE && rec[x.header..x.header + x.typeLen] == WIFI_TYPE
            then Some(rec[|rec| - x.payloadLen..])
            else None
  {
    var x := ExtentOf(rec).value;
    var start := x.header + x.typeLen + x.idLen;
    assert start == |rec| - x.payloadLen && rec[start..start + x.payloadLen] == rec[start..];
  }

  /** The two readings of the header agree: on a record as the message loop cuts it out, no length check of
      the record parser fails, and its payload is exactly the end of the record. */
  lemma HeadersAgree(data: seq<byte>)
    requires ExtentOf(data).Some?
    ensures var x := ExtentOf(data).value;
            RecordPayload(data[..x.Total()]) ==
            if Tnf(data[0]) == TNF_MEDIA_TYPE && data[x.header..x.header + x.typeLen] == WIFI_TYPE
            then Some(data[x.Total() - x.payloadLen..x.Total()])
            else None
  {
    var x := ExtentOf(data).value;
    var rec := data[..x.Total()];
    CutOutMeasures(data);
    PayloadAtEnd(rec);
    assert rec[x.header..x.header + x.typeLen] == data[x.header..x.header + x.typeLen];
    assert rec[|rec| - x.payloadLen..] == data[x.Total() - x.payloadLen..x.Total()];
  }

  const NO_CREDS: Creds := Creds([], [], SEC_OPEN, false)

  /** What the parsers leave behind: the answer and the contents of the credentials struct. */
  datatype Scan = Scan(ok: bool, creds: Creds)

  function ScanRecord(data: seq<byte>, c: Creds): Scan {
    var p := RecordPayload(data);
    if p.None? then Scan(false, c) else
      var f := Fold(Found(NO_CREDS, false), Flatten(p.value));
      Scan(f.ssid, f.creds)
  }

  /** What a loop does with the item at its cursor: stop with an answer, or move on. */
  datatype Front = Done(scan: Scan) | Skip(n: nat, creds: Creds)

  function RecordFront(data: seq<byte>, c: Creds): (f: Front)
    ensures f.Skip? ==> 3 <= f.n <= |data|
  {
    var x := ExtentOf(data);
    if x.None? then Done(Scan(false, c)) else
      var r := ScanRecord(data[..x.value.Total()], c);
      if r.ok || FlagME(data[0]) then Done(r) else Skip(x.value.Total(), r.creds)
  }

  /** Records in order, up to the first Wi-Fi one with an SSID, the message end, or the first that does not
      fit. */
  function ScanMessage(data: seq<byte>, c: Creds): Scan
    decreases |data|
  {
    match RecordFront(data, c)
    case Done(s) => s
    case Skip(n, c') => ScanMessage(data[n..], c')
  }

  // ---------------------------------------------------------------- TLV blocks

  const TLV_NULL: byte := 0x00
  const TLV_NDEF: byte := 0x03
  const TLV_TERMINATOR: byte := 0xFE

  /** Where the value of the TLV at the front starts and how long it is, or None if it does not fit. */
  function TlvExtent(data: seq<byte>): (x: Option<(nat, nat)>)
    requires data != []
    ensures x.Some? ==> 2 <= x.value.0 && x.value.0 + x.value.1 <= |data| && x.value.1 < 0x1_0000
  {
    if |data| < 2 || (data[1] == 0xFF && |data| < 4) then None else
      var start := if data[1] == 0xFF then 4 else 2;
      var len := if data[1] == 0xFF then Word16(data[2], data[3]) else data[1];
      if start + len > |data| then None else Some((start, len))
  }

  function TlvFront(data: seq<byte>, c: Creds): (f: Front)
    ensures f.Skip? ==> 1 <= f.n <= |data|
  {
    if data == [] || data[0] == TLV_TERMINATOR then Done(Scan(false, c))
    else if data[0] == TLV_NULL then Skip(1, c)
    else
      var x := TlvExtent(data);
      if x.None? then Done(Scan(false, c)) else
        var (start, len) := x.value;
        var m := if data[0] == TLV_NDEF then ScanMessage(data[start..start + len], c) else Scan(false, c);
        if m.ok then Done(m) else Skip(start + len, m.creds)
  }

  /** TLVs in order, up to the first NDEF message with credentials, a terminator, or the first that does
      not fit. */
  function ScanArea(data: seq<byte>, c: Creds): Scan
    decreases |data|
  {
    match TlvFront(data, c)
    case Done(s) => s
    case Skip(n, c') => ScanArea(data[n..], c')
  }

  const CC_MAGIC: byte := 0xE1

  /** The whole tag: four octets a page, capability container on page 3, data from page 4. */
  function ScanTag(pages: seq<byte>, pagesRead: nat, c: Creds): Scan
    requires pagesRead * 4 <= |pages|
  {
    if pagesRead < 5 || pages[12] != CC_MAGIC then Scan(false, c)
    else ScanArea(pages[16..pagesRead * 4], c)
  }
}
