/** Octets, C strings and the few sequence facts that every other module uses. */
module Bytes {

  /** One octet.  Bit operations are written arithmetically, except in the checksum module. */
  type byte = x: int | 0 <= x < 256

  datatype Option<+T> = None | Some(value: T)

  /** A C string is the run of octets before the first NUL. */
  ghost predicate IsCString(s: seq<byte>) {
    0 !in s
  }

  /** What a C reader sees in a buffer: everything before the first NUL (or all of it if there is none). */
  function CStr(buf: seq<byte>): (s: seq<byte>)
    ensures IsCString(s)
    ensures s <= buf
    ensures |s| < |buf| ==> buf[|s|] == 0
  {
    if buf == [] || buf[0] == 0 then [] else [buf[0]] + CStr(buf[1..])
  }

  /** Storing some octets and a NUL leaves in the buffer the C string that those octets hold. */
  lemma {:induction false} CStrStored(v: seq<byte>, buf: seq<byte>)
    requires v < buf && buf[|v|] == 0
    ensures CStr(buf) == CStr(v)
  {
    if v != [] {
      assert buf[1..][|v| - 1] == 0 && v[1..] < buf[1..];
      CStrStored(v[1..], buf[1..]);
    }
  }

  lemma {:induction false} CStrOfCString(s: seq<byte>)
    requires IsCString(s)
    ensures CStr(s) == s
  {
    if s != [] {
      CStrOfCString(s[1..]);
    }
  }

  /** The octets of a text of plain characters. */
  function Ascii(text: string): (s: seq<byte>)
    requires forall i :: 0 <= i < |text| ==> text[i] < 128 as char
    ensures |s| == |text|
  {
    seq(|text|, i requires 0 <= i < |text| => text[i] as int)
  }

  /** What of a text there is room for. */
  function Take(s: seq<byte>, room: nat): seq<byte> {
    if |s| <= room then s else s[..room]
  }

  function Repeat<T>(x: T, n: nat): (s: seq<T>)
    ensures |s| == n && forall i :: 0 <= i < n ==> s[i] == x
  {
    seq(n, _ => x)
  }
}
