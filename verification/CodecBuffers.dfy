/** The builder and the parser as they run: moving cursors over caller-supplied buffers, filled in place. */
module CodecBuffers {
  import opened Bytes
  import opened Codec

  // ---------------------------------------------------------------- the credentials struct

  /** The credentials struct: two NUL-terminated character arrays and two scalars, updated in place. */
  class CredsBuffer {
    const ssid: array<byte>
    const password: array<byte>
    var security: byte
    var hidden: bool

    ghost predicate Valid()
      reads this
    {
      ssid.Length == SSID_MAX + 1 && password.Length == PASS_MAX + 1 && ssid != password
    }

    /** The credentials a reader of the struct sees. */
    ghost function Value(): (c: Creds)
      reads this, ssid, password
    {
      Creds(CStr(ssid[..]), CStr(password[..]), security, hidden)
    }

    constructor ()
      ensures Valid() && fresh(ssid) && fresh(password)
      ensures Value() == Creds([], [], SEC_OPEN, false)
    {
      ssid := new byte[SSID_MAX + 1](_ => 0);
      password := new byte[PASS_MAX + 1](_ => 0);
      security, hidden := SEC_OPEN, false;
    }

    /** memset to zero. */
    method Clear()
      requires Valid()
      modifies this, ssid, password
      ensures Valid()
      ensures Value() == Creds([], [], SEC_OPEN, false)
      ensures forall i :: 0 <= i < ssid.Length ==> ssid[i] == 0
      ensures forall i :: 0 <= i < password.Length ==> password[i] == 0
    {
      forall i | 0 <= i < ssid.Length { ssid[i] := 0; }
      forall i | 0 <= i < password.Length { password[i] := 0; }
      security, hidden := SEC_OPEN, false;
    }
  }

  // ---------------------------------------------------------------- the builder

  /** What fits of an escaped string in `room` octets, never splitting an escape pair. */
  function EscapeFit(s: seq<byte>, room: int): seq<byte> {
    if s == [] || room < |EscapeOne(s[0])| then [] else EscapeOne(s[0]) + EscapeFit(s[1..], room - |EscapeOne(s[0])|)
  }

  /** What fits is the escape of a prefix; if anything was cut, at most one octet of room is left over. */
  lemma {:induction false} EscapeFitIsPrefix(s: seq<byte>, room: nat) returns (n: nat)
    ensures n <= |s| && EscapeFit(s, room) == Escape(s[..n])
    ensures |EscapeFit(s, room)| <= room
    ensures n == |s| <==> |Escape(s)| <= room
    ensures n < |s| ==> |EscapeFit(s, room)| >= room - 1
  {
    n := 0;
    if s == [] {
    } else if room > 0 && !(NeedsEscape(s[0]) && room < 2) {
      var m := EscapeFitIsPrefix(s[1..], if NeedsEscape(s[0]) then room - 2 else room - 1);
      n := m + 1;
      assert s[..n][1..] == s[1..][..m];
    } else {
      EscapeLength(s[1..]);
    }
  }

  method EscapeAppend(out: array<byte>, start: nat, str: seq<byte>) returns (pos: nat)
    requires start < out.Length
    modifies out
    ensures pos == start + |EscapeFit(str, out.Length - 1 - start)| < out.Length
    ensures out[..pos] == old(out[..start]) + EscapeFit(str, out.Length - 1 - start)
  {
    pos := start;
    var i := 0;
    ghost var whole := out[..start] + EscapeFit(str, out.Length - 1 - start);
    while i < |str| && pos < out.Length - 1
      invariant 0 <= i <= |str| && start <= pos <= out.Length - 1
      invariant whole == out[..pos] + EscapeFit(str[i..], out.Length - 1 - pos)
      decreases |str| - i
    {
      if NeedsEscape(str[i]) && pos + 2 > out.Length - 1 {
        break;
      }
      FitOneMore(out[..pos], str, i, out.Length - 1 - pos);
      pos := PutEscaped(out, pos, str[i]);
      i := i + 1;
    }
    assert EscapeFit(str[i..], out.Length - 1 - pos) == [];
  }

  lemma FitOneMore(head: seq<byte>, str: seq<byte>, i: nat, room: int)
    requires i < |str| && |EscapeOne(str[i])| <= room
    ensures head + EscapeFit(str[i..], room)
            == (head + EscapeOne(str[i])) + EscapeFit(str[i + 1..], room - |EscapeOne(str[i])|)
  {
    assert str[i..][1..] == str[i + 1..];
  }

  method PutEscaped(out: array<byte>, start: nat, c: byte) returns (pos: nat)
    requires start + |EscapeOne(c)| <= out.Length
    modifies out
    ensures pos == start + |EscapeOne(c)| && out[..pos] == old(out[..start]) + EscapeOne(c)
  {
    pos := start;
    if NeedsEscape(c) {
      pos := Put(out, pos, BACKSLASH);
    }
    pos := Put(out, pos, c);
  }

  /** One octet at the end of what is there. */
  method Put(out: array<byte>, start: nat, c: byte) returns (pos: nat)
    requires start < out.Length
    modifies out
    ensures pos == start + 1 && out[..pos] == old(out[..start]) + [c]
  {
    out[start] := c;
    pos := start + 1;
  }

  /** A cut is never silent: whenever the escaped text does not fit in front of the next `reserve`
      octets, the caller's next length check refuses. */
  method EscapeAppendChecked(out: array<byte>, start: nat, str: seq<byte>, reserve: nat)
    returns (pos: nat, fits: bool)
    requires start < out.Length && reserve >= 2
    modifies out
    ensures fits <==> start + |Escape(str)| + reserve < out.Length
    ensures fits ==> pos == start + |Escape(str)| && out[..pos] == old(out[..start]) + Escape(str)
  {
    ghost var m := EscapeFitIsPrefix(str, out.Length - 1 - start);
    assert str[..|str|] == str;
    pos := EscapeAppend(out, start, str);
    fits := !(pos + reserve >= out.Length);
  }

  /** memcpy of a literal to a place where it fits. */
  method Append(out: array<byte>, start: nat, text: seq<byte>) returns (pos: nat)
    requires start + |text| <= out.Length
    modifies out
    ensures pos == start + |text|
    ensures out[..pos] == old(out[..start]) + text
  {
    forall i | 0 <= i < |text| { out[start + i] := text[i]; }
    pos := start + |text|;
    assert out[..start] == old(out[..start]);
    assert out[start..pos] == text;
    assert out[..pos] == out[..start] + out[start..pos];
  }

  /** The text up to the SSID, in a buffer of at least 16 octets; refused when it does not fit. */
  method BuildType(creds: Creds, out: array<byte>) returns (pos: nat, fits: bool)
    modifies out
    ensures fits <==> out.Length >= 16 && |BeforeSsid(creds)| + 2 < out.Length
    ensures fits ==> pos == |BeforeSsid(creds)| + 2 && out[..pos] == BeforeSsid(creds) + Key(KEY_S)
  {
    pos, fits := 0, false;
    var name := TypeName(creds.security);
    if out.Length < 16 || pos + 7 >= out.Length {
      return;
    }
    pos := Append(out, pos, WIFI + Key(KEY_T));
    if pos + |name| + 3 >= out.Length {
      return;
    }
    pos := Append(out, pos, name);
    pos := Append(out, pos, [SEMICOLON] + Key(KEY_S));
    fits := true;
  }

  /** An escaped value and the literal after it, in front of the terminator; refused when they do not fit. */
  method AppendValue(out: array<byte>, start: nat, value: seq<byte>, after: seq<byte>) returns (pos: nat, fits: bool)
    requires start < out.Length && |after| >= 2
    modifies out
    ensures fits <==> start + |Escape(value)| + |after| < out.Length
    ensures fits ==> pos == start + |Escape(value)| + |after| && out[..pos] == old(out[..start]) + Escape(value) + after
  {
    pos, fits := EscapeAppendChecked(out, start, value, |after|);
    if fits {
      pos := Append(out, pos, after);
    }
  }

  /** SSID, password and the tail, after a prefix that is already there. */
  method BuildRest(out: array<byte>, start: nat, ssid: seq<byte>, password: seq<byte>, tail: seq<byte>)
    returns (n: nat)
    requires start < out.Length && |tail| >= 2
    modifies out
    ensures var rest := Escape(ssid) + [SEMICOLON] + Key(KEY_P) + Escape(password) + tail;
            if start + |rest| < out.Length
            then n == start + |rest| && out[..n] == old(out[..start]) + rest && out[n] == 0
            else n == 0
  {
    ghost var head, s, p := out[..start], Escape(ssid), Escape(password);
    var middle := [SEMICOLON] + Key(KEY_P);
    var pos, fits := AppendValue(out, start, ssid, middle);
    if !fits {
      return 0;
    }
    pos, fits := AppendValue(out, pos, password, tail);
    if !fits {
      return 0;
    }
    assert head + s + middle + p + tail == head + (s + [SEMICOLON] + Key(KEY_P) + p + tail);
    out[pos] := 0;
    return pos;
  }

  lemma BuildParts(c: Creds)
    ensures Build(c) == BeforeSsid(c) + Key(KEY_S)
                        + (Escape(c.ssid) + [SEMICOLON] + Key(KEY_P) + Escape(c.password) + ([SEMICOLON] + HiddenPart(c)))
  {
    BuildSplits(c);
  }

  /** All or nothing: the whole text with its terminator when it fits, and 0 when it does not. */
  method BuildWifiString(creds: Creds, out: array<byte>) returns (n: nat)
    modifies out
    ensures |Build(creds)| < out.Length ==> n == |Build(creds)| && out[..n] == Build(creds) && out[n] == 0
    ensures |Build(creds)| >= out.Length ==> n == 0
  {
    BuildParts(creds);
    BuildLength(creds);
    var pos, fits := BuildType(creds, out);
    if !fits {
      return 0;
    }
    n := BuildRest(out, pos, creds.ssid, creds.password, [SEMICOLON] + HiddenPart(creds));
  }

  // ---------------------------------------------------------------- the parser

  /** The value loop: copy until an unescaped semicolon, the end of the text, or a full buffer. */
  method CopyValue(p: seq<byte>, out: array<byte>) returns (pos: nat)
    requires out.Length >= 1
    modifies out
    ensures pos == |ReadValue(p, out.Length - 1)|
    ensures out[..pos] == ReadValue(p, out.Length - 1) && out[pos] == 0
  {
    pos := 0;
    var rest := p;
    ghost var whole := ReadValue(p, out.Length - 1);
    while rest != [] && pos < out.Length - 1
      invariant 0 <= pos <= out.Length - 1
      invariant whole == out[..pos] + ReadValue(rest, out.Length - 1 - pos)
      decreases |rest|
    {
      ReadMore(out[..pos], rest, out.Length - 1 - pos);
      if rest[0] == BACKSLASH && |rest| > 1 {
        pos := Put(out, pos, rest[1]);
        rest := rest[2..];
      } else if rest[0] == SEMICOLON {
        break;
      } else {
        pos := Put(out, pos, rest[0]);
        rest := rest[1..];
      }
    }
    assert ReadValue(rest, out.Length - 1 - pos) == [];
    out[pos] := 0;
  }

  lemma ReadMore(head: seq<byte>, rest: seq<byte>, room: nat)
    requires rest != [] && room > 0
    ensures rest[0] == BACKSLASH && |rest| > 1 ==>
              head + ReadValue(rest, room) == (head + [rest[1]]) + ReadValue(rest[2..], room - 1)
    ensures !(rest[0] == BACKSLASH && |rest| > 1) && rest[0] != SEMICOLON ==>
              head + ReadValue(rest, room) == (head + [rest[0]]) + ReadValue(rest[1..], room - 1)
  {}

  /** Returns the length of the value, or -1 if the key does not occur; then the buffer is untouched. */
  method ExtractFieldInto(str: seq<byte>, k: byte, out: array<byte>) returns (n: int)
    requires IsCString(str) && out.Length >= 1
    modifies out
    ensures match ExtractField(str, k, out.Length - 1)
            case None => n == -1 && out[..] == old(out[..])
            case Some(v) => n == |v| && CStr(out[..]) == v
  {
    var p := str;
    while p != []
      invariant IsCString(p)
      invariant ExtractField(p, k, out.Length - 1) == ExtractField(str, k, out.Length - 1)
      invariant out[..] == old(out[..])
      decreases |p|
    {
      if StartsWithKey(p, k) {
        n := CopyValue(p[2..], out);
        CStrStored(ReadValue(p[2..], out.Length - 1), out[..]);
        CStrOfCString(ReadValue(p[2..], out.Length - 1));
        return n;
      }
      p := p[1..];
    }
    n := -1;
  }

  /** The security type the T: field names, open when there is none. */
  function TypeOf(str: seq<byte>): byte {
    match ExtractField(str, KEY_T, TYPE_ROOM)
    case None => SEC_OPEN
    case Some(name) => SecurityOf(name)
  }

  /** In text: the type that a refused text may leave behind. */
  lemma TypeOfInText(str: seq<byte>)
    ensures var name := ExtractField(str, 0x54, 15);
            TypeOf(str) ==
            if name == Some(Ascii("WPA")) then 1 else if name == Some(Ascii("WEP")) then 2
            else if name == Some(Ascii("SAE")) then 3 else 0
  {
    var name := ExtractField(str, 0x54, 15);
    if name.Some? {
      SecurityInText(name.value);
    }
  }

  method ParseType(str: seq<byte>) returns (security: Option<byte>)
    requires IsCString(str)
    ensures security == match ExtractField(str, KEY_T, TYPE_ROOM)
                        case None => None
                        case Some(name) => Some(SecurityOf(name))
  {
    var typeBuf := new byte[TYPE_ROOM + 1](_ => 0);
    var n := ExtractFieldInto(str, KEY_T, typeBuf);
    security := if n < 0 then None else Some(SecurityOf(CStr(typeBuf[..])));
  }

  method ParseHidden(str: seq<byte>) returns (hidden: bool)
    requires IsCString(str)
    ensures hidden == (ExtractField(str, KEY_H, HIDDEN_ROOM) == Some(TRUE))
  {
    var hiddenBuf := new byte[HIDDEN_ROOM + 1](_ => 0);
    var n := ExtractFieldInto(str, KEY_H, hiddenBuf);
    hidden := n >= 0 && CStr(hiddenBuf[..]) == TRUE;
  }

  /** The parser fills the struct with exactly what the text says; on failure nothing but the security type
      is left in it. */
  method ParseWifiString(str: seq<byte>, creds: CredsBuffer) returns (ok: bool)
    requires IsCString(str) && creds.Valid()
    modifies creds, creds.ssid, creds.password
    ensures creds.Valid() && ok == Parse(str).Some?
    ensures ok ==> creds.Value() == Parse(str).value
    ensures !ok && WIFI <= str ==> creds.Value() == Creds([], [], TypeOf(str), false)
    ensures !(WIFI <= str) ==> creds.Value() == old(creds.Value())
  {
    if !(WIFI <= str) {
      return false;
    }
    creds.Clear();
    assert CStr(creds.ssid[..]) == [] && CStr(creds.password[..]) == [];
    var security := ParseType(str);
    if security.None? {
      return false;
    }
    creds.security := security.value;
    var n := ExtractFieldInto(str, KEY_S, creds.ssid);
    if n < 0 || creds.ssid[0] == 0 {
      return false;
    }
    n := ExtractFieldInto(str, KEY_P, creds.password);
    creds.hidden := ParseHidden(str);
    return true;
  }
}
