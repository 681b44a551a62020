/** The payload text: WIFI:T:<type>;S:<ssid>;P:<password>;H:<hidden>;;  What the builder prints and what
    the parser reads, as functions on C strings, and the proof that the one undoes the other. */
module Codec {
  import opened Bytes

  datatype Creds = Creds(ssid: seq<byte>, password: seq<byte>, security: byte, hidden: bool)

  const SSID_MAX := 32
  const PASS_MAX := 63

  const SEC_OPEN: byte := 0
  const SEC_WPA: byte := 1
  const SEC_WEP: byte := 2
  const SEC_SAE: byte := 3

  ghost predicate CStringCreds(c: Creds) {
    IsCString(c.ssid) && IsCString(c.password)
  }

  /** Credentials that can be sent and come back unchanged. */
  ghost predicate ValidCreds(c: Creds) {
    && CStringCreds(c)
    && 1 <= |c.ssid| <= SSID_MAX
    && |c.password| <= PASS_MAX
    && c.security <= SEC_SAE
  }

  // ---------------------------------------------------------------- characters

  const BACKSLASH: byte := 0x5C
  const SEMICOLON: byte := 0x3B
  const COLON: byte := 0x3A

  const KEY_T: byte := 0x54
  const KEY_S: byte := 0x53
  const KEY_P: byte := 0x50
  const KEY_H: byte := 0x48

  const WIFI: seq<byte> := [0x57, 0x49, 0x46, 0x49, 0x3A]                       // WIFI:
  const WPA: seq<byte> := [0x57, 0x50, 0x41]                                    // WPA
  const WEP: seq<byte> := [0x57, 0x45, 0x50]                                    // WEP
  const SAE: seq<byte> := [0x53, 0x41, 0x45]                                    // SAE
  const NOPASS: seq<byte> := [0x6E, 0x6F, 0x70, 0x61, 0x73, 0x73]               // nopass
  const TRUE: seq<byte> := [0x74, 0x72, 0x75, 0x65]                             // true
  const FALSE: seq<byte> := [0x66, 0x61, 0x6C, 0x73, 0x65]                      // false

  predicate NeedsEscape(c: byte) {
    c == BACKSLASH || c == SEMICOLON || c == COLON || c == 0x22 || c == 0x2C
  }

  // ---------------------------------------------------------------- the builder

  function EscapeOne(c: byte): seq<byte> {
    if NeedsEscape(c) then [BACKSLASH, c] else [c]
  }

  function Escape(s: seq<byte>): seq<byte> {
    if s == [] then [] else EscapeOne(s[0]) + Escape(s[1..])
  }

  function TypeName(security: byte): seq<byte> {
    if security == SEC_WPA then WPA
    else if security == SEC_WEP then WEP
    else if security == SEC_SAE then SAE
    else NOPASS
  }

  function HiddenName(hidden: bool): seq<byte> {
    if hidden then TRUE else FALSE
  }

  function Key(k: byte): seq<byte> {
    [k, COLON]
  }

  /** A field's value, the semicolon that ends it, and what follows. */
  function Field(value: seq<byte>, rest: seq<byte>): seq<byte> {
    value + [SEMICOLON] + rest
  }

  function HiddenPart(c: Creds): seq<byte> {
    Key(KEY_H) + Field(HiddenName(c.hidden), [SEMICOLON])
  }

  function PasswordPart(c: Creds): seq<byte> {
    Key(KEY_P) + Field(Escape(c.password), HiddenPart(c))
  }

  function SsidPart(c: Creds): seq<byte> {
    Key(KEY_S) + Field(Escape(c.ssid), PasswordPart(c))
  }

  function Build(c: Creds): seq<byte> {
    WIFI + (Key(KEY_T) + Field(TypeName(c.security), SsidPart(c)))
  }

  // ---------------------------------------------------------------- the parser

  /** Read a value up to an unescaped semicolon, dropping the escapes; at most `room` characters fit. */
  function ReadValue(p: seq<byte>, room: nat): (v: seq<byte>)
    ensures |v| <= room
    ensures IsCString(p) ==> IsCString(v)
    decreases |p|
  {
    if p == [] || room == 0 then []
    else if p[0] == BACKSLASH && |p| > 1 then [p[1]] + ReadValue(p[2..], room - 1)
    else if p[0] == SEMICOLON then []
    else [p[0]] + ReadValue(p[1..], room - 1)
  }

  predicate StartsWithKey(p: seq<byte>, k: byte) {
    |p| >= 2 && p[0] == k && p[1] == COLON
  }

  /** The value after the first occurrence of the key, wherever in the text that is. */
  function ExtractField(p: seq<byte>, k: byte, room: nat): (v: Option<seq<byte>>)
    ensures v.Some? ==> |v.value| <= room
    ensures v.Some? && IsCString(p) ==> IsCString(v.value)
  {
    if p == [] then None
    else if StartsWithKey(p, k) then Some(ReadValue(p[2..], room))
    else ExtractField(p[1..], k, room)
  }

  const TYPE_ROOM := 15
  const HIDDEN_ROOM := 7

  function SecurityOf(name: seq<byte>): byte {
    if name == WPA then SEC_WPA
    else if name == WEP then SEC_WEP
    else if name == SAE then SEC_SAE
    else SEC_OPEN
  }

  /** The credentials the four fields make; type and a non-empty SSID are required. */
  function FromFields(kind: Option<seq<byte>>, ssid: Option<seq<byte>>, pass: Option<seq<byte>>, hidden: Option<seq<byte>>): Option<Creds> {
    if kind.None? || ssid.None? || ssid.value == [] then None
    else Some(Creds(ssid.value, if pass.Some? then pass.value else [], SecurityOf(kind.value), hidden == Some(TRUE)))
  }

  function Parse(str: seq<byte>): Option<Creds> {
    if !(WIFI <= str) then None
    else FromFields(ExtractField(str, KEY_T, TYPE_ROOM), ExtractField(str, KEY_S, SSID_MAX),
                    ExtractField(str, KEY_P, PASS_MAX), ExtractField(str, KEY_H, HIDDEN_ROOM))
  }

  // ---------------------------------------------------------------- where keys can occur

  ghost predicate KeyAt(s: seq<byte>, k: byte, j: int) {
    0 <= j && j + 1 < |s| && s[j] == k && s[j + 1] == COLON
  }

  ghost predicate NoKey(s: seq<byte>, k: byte) {
    forall j :: !KeyAt(s, k, j)
  }

  lemma NoKeyConcat(a: seq<byte>, b: seq<byte>, k: byte)
    requires NoKey(a, k) && NoKey(b, k)
    requires a == [] || b == [] || a[|a| - 1] != k || b[0] != COLON
    ensures NoKey(a + b, k)
  {
    forall j
      ensures !KeyAt(a + b, k, j)
    {
      assert !KeyAt(a, k, j) && !KeyAt(b, k, j - |a|);
    }
  }

  /** In escaped text a colon always has a backslash before it, so no key can occur there. */
  lemma {:induction false} EscapeHasNoKey(s: seq<byte>, k: byte)
    requires k != BACKSLASH
    ensures NoKey(Escape(s), k)
    ensures Escape(s) != [] ==> Escape(s)[0] != COLON
  {
    if s != [] {
      EscapeHasNoKey(s[1..], k);
      NoKeyConcat(EscapeOne(s[0]), Escape(s[1..]), k);
    }
  }

  /** The search stops at the first key and reads the value there. */
  lemma {:induction false} ExtractAtFirstKey(pre: seq<byte>, k: byte, rest: seq<byte>, room: nat)
    requires NoKey(pre, k) && k != COLON
    ensures ExtractField(pre + (Key(k) + rest), k, room) == Some(ReadValue(rest, room))
  {
    var p := pre + (Key(k) + rest);
    if pre == [] {
      assert p[2..] == rest;
    } else {
      assert !KeyAt(pre, k, 0);
      assert !StartsWithKey(p, k);
      assert p[1..] == pre[1..] + (Key(k) + rest);
      forall j
        ensures !KeyAt(pre[1..], k, j)
      {
        assert !KeyAt(pre, k, j + 1);
      }
      ExtractAtFirstKey(pre[1..], k, rest, room);
    }
  }

  lemma ReadOne(c: byte, tail: seq<byte>, room: nat)
    requires room > 0
    ensures ReadValue(EscapeOne(c) + tail, room) == [c] + ReadValue(tail, room - 1)
  {
    var p := EscapeOne(c) + tail;
    assert p[|EscapeOne(c)|..] == tail;
  }

  lemma FieldCons(c: byte, s: seq<byte>, rest: seq<byte>)
    ensures Field(Escape([c] + s), rest) == EscapeOne(c) + Field(Escape(s), rest)
  {
    assert ([c] + s)[1..] == s;
  }

  lemma TakeCons(c: byte, s: seq<byte>, room: nat)
    requires room > 0
    ensures Take([c] + s, room) == [c] + Take(s, room - 1)
  {}

  /** Reading undoes escaping, up to the room there is. */
  lemma {:induction false} ReadEscaped(s: seq<byte>, rest: seq<byte>, room: nat)
    ensures ReadValue(Field(Escape(s), rest), room) == Take(s, room)
  {
    if s != [] && room != 0 {
      var c, tail := s[0], s[1..];
      assert s == [c] + tail;
      FieldCons(c, tail, rest);
      TakeCons(c, tail, room);
      ReadOne(c, Field(Escape(tail), rest), room);
      ReadEscaped(tail, rest, room - 1);
    }
  }

  lemma {:induction false} PlainEscape(s: seq<byte>)
    requires forall c :: c in s ==> !NeedsEscape(c)
    ensures Escape(s) == s
  {
    if s != [] {
      PlainEscape(s[1..]);
    }
  }

  // ---------------------------------------------------------------- the round trip

  lemma TypeNames(security: byte, room: nat)
    requires room >= 6
    ensures Escape(TypeName(security)) == TypeName(security) && Take(TypeName(security), room) == TypeName(security)
    ensures SecurityOf(TypeName(security)) == if security <= SEC_SAE then security else SEC_OPEN
  {
    PlainEscape(TypeName(security));
  }

  lemma HiddenNames(hidden: bool, room: nat)
    requires room >= 5
    ensures Escape(HiddenName(hidden)) == HiddenName(hidden) && Take(HiddenName(hidden), room) == HiddenName(hidden)
    ensures (HiddenName(hidden) == TRUE) == hidden
  {
    PlainEscape(HiddenName(hidden));
  }

  /** The text before each key, as the search for that key sees it. */
  function BeforeSsid(c: Creds): seq<byte> {
    WIFI + Key(KEY_T) + TypeName(c.security) + [SEMICOLON]
  }

  function BeforePassword(c: Creds): seq<byte> {
    BeforeSsid(c) + Key(KEY_S) + Escape(c.ssid) + [SEMICOLON]
  }

  function BeforeHidden(c: Creds): seq<byte> {
    BeforePassword(c) + Key(KEY_P) + Escape(c.password) + [SEMICOLON]
  }

  lemma Regroup(before: seq<byte>, key: seq<byte>, value: seq<byte>, rest: seq<byte>)
    ensures before + (key + Field(value, rest)) == (before + key + value + [SEMICOLON]) + rest
  {}

  lemma BuildSplits(c: Creds)
    ensures Build(c) == BeforeSsid(c) + SsidPart(c)
    ensures Build(c) == BeforePassword(c) + PasswordPart(c)
    ensures Build(c) == BeforeHidden(c) + HiddenPart(c)
  {
    Regroup(WIFI, Key(KEY_T), TypeName(c.security), SsidPart(c));
    Regroup(BeforeSsid(c), Key(KEY_S), Escape(c.ssid), PasswordPart(c));
    Regroup(BeforePassword(c), Key(KEY_P), Escape(c.password), HiddenPart(c));
  }

  lemma {:induction false} NoKeyInField(before: seq<byte>, key: seq<byte>, value: seq<byte>, k: byte)
    requires NoKey(before, k) && NoKey(key, k) && NoKey(value, k)
    requires before == [] || before[|before| - 1] != k
    requires |key| == 2 && key[1] == COLON != k && (value == [] || value[0] != COLON)
    ensures NoKey(before + key + value + [SEMICOLON], k)
  {
    NoKeyConcat(before, key, k);
    NoKeyConcat(before + key, value, k);
    NoKeyConcat(before + key + value, [SEMICOLON], k);
  }

  /** No key occurs before its own field, whatever the SSID and the password contain. */
  lemma NoKeyBefore(c: Creds)
    ensures NoKey(WIFI, KEY_T)
    ensures NoKey(BeforeSsid(c), KEY_S)
    ensures NoKey(BeforePassword(c), KEY_P)
    ensures NoKey(BeforeHidden(c), KEY_H)
  {
    NoKeyInField(WIFI, Key(KEY_T), TypeName(c.security), KEY_S);
    NoKeyInField(WIFI, Key(KEY_T), TypeName(c.security), KEY_P);
    NoKeyInField(WIFI, Key(KEY_T), TypeName(c.security), KEY_H);
    EscapeHasNoKey(c.ssid, KEY_P);
    NoKeyInField(BeforeSsid(c), Key(KEY_S), Escape(c.ssid), KEY_P);
    EscapeHasNoKey(c.ssid, KEY_H);
    NoKeyInField(BeforeSsid(c), Key(KEY_S), Escape(c.ssid), KEY_H);
    EscapeHasNoKey(c.password, KEY_H);
    NoKeyInField(BeforePassword(c), Key(KEY_P), Escape(c.password), KEY_H);
  }

  lemma ExtractType(c: Creds)
    ensures ExtractField(Build(c), KEY_T, TYPE_ROOM) == Some(TypeName(c.security))
  {
    TypeNames(c.security, TYPE_ROOM);
    NoKeyBefore(c);
    ExtractAtFirstKey(WIFI, KEY_T, Field(TypeName(c.security), SsidPart(c)), TYPE_ROOM);
    ReadEscaped(TypeName(c.security), SsidPart(c), TYPE_ROOM);
  }

  lemma ExtractSsid(c: Creds)
    ensures ExtractField(Build(c), KEY_S, SSID_MAX) == Some(Take(c.ssid, SSID_MAX))
  {
    NoKeyBefore(c);
    BuildSplits(c);
    ExtractAtFirstKey(BeforeSsid(c), KEY_S, Field(Escape(c.ssid), PasswordPart(c)), SSID_MAX);
    ReadEscaped(c.ssid, PasswordPart(c), SSID_MAX);
  }

  lemma ExtractPassword(c: Creds)
    ensures ExtractField(Build(c), KEY_P, PASS_MAX) == Some(Take(c.password, PASS_MAX))
  {
    NoKeyBefore(c);
    BuildSplits(c);
    ExtractAtFirstKey(BeforePassword(c), KEY_P, Field(Escape(c.password), HiddenPart(c)), PASS_MAX);
    ReadEscaped(c.password, HiddenPart(c), PASS_MAX);
  }

  lemma ExtractHidden(c: Creds)
    ensures ExtractField(Build(c), KEY_H, HIDDEN_ROOM) == Some(HiddenName(c.hidden))
  {
    HiddenNames(c.hidden, HIDDEN_ROOM);
    NoKeyBefore(c);
    BuildSplits(c);
    ExtractAtFirstKey(BeforeHidden(c), KEY_H, Field(HiddenName(c.hidden), [SEMICOLON]), HIDDEN_ROOM);
    ReadEscaped(HiddenName(c.hidden), [SEMICOLON], HIDDEN_ROOM);
  }

  /** Parsing what the builder printed, for any credentials at all: over-long fields are cut to their
      buffers, an unknown security type reads as open, and only an empty SSID is refused. */
  lemma ParseBuild(c: Creds)
    ensures Parse(Build(c)) ==
            if c.ssid == [] then None
            else Some(Creds(Take(c.ssid, SSID_MAX), Take(c.password, PASS_MAX),
                            if c.security <= SEC_SAE then c.security else SEC_OPEN, c.hidden))
  {
    ExtractType(c);
    ExtractSsid(c);
    ExtractPassword(c);
    ExtractHidden(c);
    FieldsOf(c);
    assert WIFI <= Build(c);
  }

  lemma FieldsOf(c: Creds)
    ensures FromFields(Some(TypeName(c.security)), Some(Take(c.ssid, SSID_MAX)), Some(Take(c.password, PASS_MAX)),
                       Some(HiddenName(c.hidden))) ==
            if c.ssid == [] then None
            else Some(Creds(Take(c.ssid, SSID_MAX), Take(c.password, PASS_MAX),
                            if c.security <= SEC_SAE then c.security else SEC_OPEN, c.hidden))
  {
    TypeNames(c.security, TYPE_ROOM);
    HiddenNames(c.hidden, HIDDEN_ROOM);
  }

  /** Exactly the valid credentials survive the round trip. */
  lemma RoundTrip(c: Creds)
    requires CStringCreds(c)
    ensures Parse(Build(c)) == Some(c) <==> ValidCreds(c)
  {
    ParseBuild(c);
  }

  /** Whatever text parses, the credentials it gives are valid, and printing them is a normal form. */
  lemma ParseNormalises(str: seq<byte>)
    requires IsCString(str) && Parse(str).Some?
    ensures ValidCreds(Parse(str).value)
    ensures Parse(Build(Parse(str).value)) == Parse(str)
  {
    RoundTrip(Parse(str).value);
  }

  // ---------------------------------------------------------------- the format, spelled out

  function TypeText(security: byte): (t: string)
    ensures forall i :: 0 <= i < |t| ==> t[i] < 128 as char
  {
    match security
    case 1 => "WPA"
    case 2 => "WEP"
    case 3 => "SAE"
    case _ => "nopass"
  }

  lemma TypeSpelling(security: byte)
    ensures TypeName(security) == Ascii(TypeText(security))
  {
    assert WPA == Ascii("WPA") && WEP == Ascii("WEP") && SAE == Ascii("SAE") && NOPASS == Ascii("nopass");
  }

  /** The text is in the documented format, octet for octet. */
  lemma BuildFormat(c: Creds)
    ensures Build(c) ==
            Ascii("WIFI:T:") + Ascii(TypeText(c.security)) + Ascii(";S:") + Escape(c.ssid) + Ascii(";P:")
            + Escape(c.password) + (if c.hidden then Ascii(";H:true;;") else Ascii(";H:false;;"))
  {
    TypeSpelling(c.security);
    Pieces(c);
    BuildSplits(c);
    Reassociate(WIFI + Key(KEY_T) + TypeName(c.security), [SEMICOLON], Key(KEY_S));
    Reassociate(BeforeSsid(c) + Key(KEY_S) + Escape(c.ssid), [SEMICOLON], Key(KEY_P));
    Reassociate(BeforePassword(c) + Key(KEY_P) + Escape(c.password), [SEMICOLON], HiddenPart(c));
  }

  lemma Reassociate(a: seq<byte>, b: seq<byte>, d: seq<byte>)
    ensures a + b + d == a + (b + d)
  {}

  lemma Pieces(c: Creds)
    ensures WIFI + Key(KEY_T) == Ascii("WIFI:T:")
    ensures [SEMICOLON] + Key(KEY_S) == Ascii(";S:") && [SEMICOLON] + Key(KEY_P) == Ascii(";P:")
    ensures [SEMICOLON] + HiddenPart(c) == if c.hidden then Ascii(";H:true;;") else Ascii(";H:false;;")
  {}

  // ---------------------------------------------------------------- said in octets

  /** Which octets are escaped: the five of \;:", and no other, each by a backslash in front. */
  lemma EscapesExactly(c: byte)
    ensures Escape([c]) == if c in Ascii("\\;:\",") then Ascii("\\") + [c] else [c]
  {
    assert Ascii("\\;:\",") == [0x5C, 0x3B, 0x3A, 0x22, 0x2C] && Ascii("\\") == [0x5C];
    assert [c][1..] == [];
  }

  /** And a text is escaped octet by octet. */
  lemma {:induction false} EscapeConcat(s: seq<byte>, t: seq<byte>)
    ensures Escape(s + t) == Escape(s) + Escape(t)
  {
    if s == [] {
      assert s + t == t;
    } else {
      assert (s + t)[0] == s[0] && (s + t)[1..] == s[1..] + t;
      EscapeConcat(s[1..], t);
    }
  }

  /** The names of the security types; a number that is none has that of an open network. */
  lemma TypeNamesInText(security: byte)
    ensures TypeName(security) ==
            if security == 1 then Ascii("WPA") else if security == 2 then Ascii("WEP")
            else if security == 3 then Ascii("SAE") else Ascii("nopass")
  {
    TypeSpelling(security);
  }

  /** And what any name reads as: only these three are known. */
  lemma SecurityInText(name: seq<byte>)
    ensures SecurityOf(name) ==
            if name == Ascii("WPA") then 1 else if name == Ascii("WEP") then 2 else if name == Ascii("SAE") then 3 else 0
  {
    TypeNamesInText(1);
    TypeNamesInText(2);
    TypeNamesInText(3);
  }

  /** The round trip with its limits as numbers. */
  lemma RoundTripInNumbers(c: Creds)
    requires CStringCreds(c)
    ensures Parse(Build(c)) == Some(c) <==> 1 <= |c.ssid| <= 32 && |c.password| <= 63 && c.security <= 3
  {
    RoundTrip(c);
  }

  /** Every text that can be parsed and what it parses to: the prefix is there, so are T: and a non-empty S:; an
      absent password reads as empty, an absent H: as not hidden, and only the text true as hidden. */
  lemma ParseInText(str: seq<byte>)
    ensures var kind, ssid := ExtractField(str, 0x54, 15), ExtractField(str, 0x53, 32);
            Parse(str).Some? <==> Ascii("WIFI:") <= str && kind.Some? && ssid.Some? && ssid.value != []
    ensures var kind, ssid := ExtractField(str, 0x54, 15), ExtractField(str, 0x53, 32);
            var password, hidden := ExtractField(str, 0x50, 63), ExtractField(str, 0x48, 7);
            Parse(str).Some? ==>
              && Parse(str).value.ssid == ssid.value
              && Parse(str).value.password == (if password.None? then [] else password.value)
              && Parse(str).value.security == SecurityOf(kind.value)
              && (Parse(str).value.hidden <==> hidden.Some? && hidden.value == Ascii("true"))
  {
    assert Ascii("WIFI:") == WIFI && Ascii("true") == TRUE;
  }

  /** A key that occurs nowhere is not found. */
  lemma {:induction false} NoKeyNoField(p: seq<byte>, k: byte, room: nat)
    ensures ExtractField(p, k, room) == None <==> NoKey(p, k)
  {
    if p != [] {
      NoKeyNoField(p[1..], k, room);
      if StartsWithKey(p, k) {
        assert KeyAt(p, k, 0);
      } else {
        KeyLater(p, k);
      }
    }
  }

  lemma KeyLater(p: seq<byte>, k: byte)
    requires p != [] && !KeyAt(p, k, 0)
    ensures NoKey(p, k) <==> NoKey(p[1..], k)
  {
    if NoKey(p, k) {
      forall j
        ensures !KeyAt(p[1..], k, j)
      {
        assert !KeyAt(p, k, j + 1);
      }
    }
    if NoKey(p[1..], k) {
      forall j
        ensures !KeyAt(p, k, j)
      {
        assert !KeyAt(p[1..], k, j - 1);
      }
    }
  }

  // ---------------------------------------------------------------- reading any value

  /** A text piece by piece: an octet that stands for itself, or a backslash and the octet it protects. */
  datatype Piece = Itself(c: byte) | Protected(c: byte)

  /** Only octets other than backslash and semicolon stand for themselves. */
  predicate Proper(ps: seq<Piece>) {
    forall i :: 0 <= i < |ps| && ps[i].Itself? ==> ps[i].c != 0x5C && ps[i].c != 0x3B
  }

  function PieceText(x: Piece): seq<byte> {
    if x.Itself? then [x.c] else [0x5C, x.c]
  }

  function TextOf(ps: seq<Piece>): seq<byte> {
    if ps == [] then [] else PieceText(ps[0]) + TextOf(ps[1..])
  }

  function Meaning(ps: seq<Piece>): seq<byte> {
    if ps == [] then [] else [ps[0].c] + Meaning(ps[1..])
  }

  /** Where a value stops: at the end of the text, at a semicolon, or with a backslash that protects nothing and
      is read as itself. */
  predicate Stop(rest: seq<byte>) {
    rest == [] || rest[0] == 0x3B || rest == [0x5C]
  }

  lemma ReadsPiece(x: Piece, q: seq<byte>, room: nat)
    requires Proper([x]) && room > 0
    ensures ReadValue(PieceText(x) + q, room) == [x.c] + ReadValue(q, room - 1)
  {
    var p := PieceText(x) + q;
    assert [x][0] == x;
    assert p[|PieceText(x)|..] == q;
  }

  /** Reading a value gives what its pieces mean, as many as there is room for. */
  lemma {:induction false} ReadsPieces(ps: seq<Piece>, rest: seq<byte>, room: nat, p: seq<byte>, value: seq<byte>)
    requires Proper(ps) && Stop(rest) && p == TextOf(ps) + rest && value == Meaning(ps) + StopMeaning(rest)
    ensures ReadValue(p, room) == Take(value, room)
    decreases |ps|
  {
    if ps == [] {
      assert p == rest && value == StopMeaning(rest);
      ReadsStop(rest, room);
    } else if room > 0 {
      var x, more := ps[0], ps[1..];
      var q, v := TextOf(more) + rest, Meaning(more) + StopMeaning(rest);
      Reassociate(PieceText(x), TextOf(more), rest);
      Reassociate([x.c], Meaning(more), StopMeaning(rest));
      assert Proper([x]) && Proper(more);
      ReadsPieces(more, rest, room - 1, q, v);
      ReadsPiece(x, q, room);
      TakeCons(x.c, v, room);
    }
  }

  function StopMeaning(rest: seq<byte>): seq<byte> {
    if rest == [0x5C] then [0x5C] else []
  }

  lemma ReadsStop(rest: seq<byte>, room: nat)
    requires Stop(rest)
    ensures ReadValue(rest, room) == Take(StopMeaning(rest), room)
  {
    if rest == [0x5C] && room > 0 {
      assert rest[1..] == [];
    }
  }

  lemma TextOfCons(x: Piece, ps: seq<Piece>)
    requires Proper([x]) && Proper(ps)
    ensures Proper([x] + ps) && TextOf([x] + ps) == PieceText(x) + TextOf(ps)
  {
    assert ([x] + ps)[1..] == ps && [x][0] == x;
  }

  /** And every text is of that form. */
  lemma {:induction false} EveryTextIsPieces(p: seq<byte>) returns (ps: seq<Piece>, rest: seq<byte>)
    ensures Proper(ps) && Stop(rest) && p == TextOf(ps) + rest
    decreases |p|
  {
    if Stop(p) {
      return [], p;
    }
    var x := if p[0] == 0x5C then Protected(p[1]) else Itself(p[0]);
    var more := p[|PieceText(x)|..];
    ps, rest := EveryTextIsPieces(more);
    assert p == PieceText(x) + more;
    TextOfCons(x, ps);
    ps := [x] + ps;
  }

  // ---------------------------------------------------------------- size

  lemma {:induction false} EscapeLength(s: seq<byte>)
    ensures |s| <= |Escape(s)| <= 2 * |s|
    ensures IsCString(s) ==> IsCString(Escape(s))
  {
    if s != [] {
      EscapeLength(s[1..]);
    }
  }

  lemma BuildLength(c: Creds)
    ensures |Build(c)| ==
            18 + |TypeName(c.security)| + |Escape(c.ssid)| + |Escape(c.password)| + |HiddenName(c.hidden)|
  {}

  lemma BuildIsCString(c: Creds)
    requires CStringCreds(c)
    ensures IsCString(Build(c))
  {
    EscapeLength(c.ssid);
    EscapeLength(c.password);
    assert IsCString(HiddenPart(c));
    FieldIsCString(KEY_P, Escape(c.password), HiddenPart(c));
    FieldIsCString(KEY_S, Escape(c.ssid), PasswordPart(c));
    FieldIsCString(KEY_T, TypeName(c.security), SsidPart(c));
  }

  lemma FieldIsCString(k: byte, value: seq<byte>, rest: seq<byte>)
    requires k != 0 && IsCString(value) && IsCString(rest)
    ensures IsCString(Key(k) + Field(value, rest))
  {}

  /** Valid credentials print to between 26 and 219 octets, so the length fits the START frame's octet. */
  lemma BuildSize(c: Creds)
    requires ValidCreds(c)
    ensures 26 <= |Build(c)| <= 219 && IsCString(Build(c))
  {
    EscapeLength(c.ssid);
    EscapeLength(c.password);
    BuildLength(c);
    BuildIsCString(c);
  }

  /** Both bounds are reached. */
  lemma BuildSizeTight()
    ensures ValidCreds(Creds([0x61], [], SEC_WPA, true)) && |Build(Creds([0x61], [], SEC_WPA, true))| == 26
    ensures var c := Creds(Repeat(COLON, SSID_MAX), Repeat(COLON, PASS_MAX), SEC_OPEN, false);
            ValidCreds(c) && |Build(c)| == 219
  {
    assert Escape([0x61]) == [0x61];
    EscapeAllColons(SSID_MAX);
    EscapeAllColons(PASS_MAX);
  }

  lemma {:induction false} EscapeAllColons(n: nat)
    ensures |Escape(Repeat(COLON, n))| == 2 * n
  {
    if n != 0 {
      EscapeAllColons(n - 1);
      assert Repeat(COLON, n)[1..] == Repeat(COLON, n - 1);
    }
  }
}
