/** Shell quoting: the printer, a reader for the shell's word syntax, and the proof that what the shell
    reads back is what was printed (section 2.2 of the POSIX Shell Command Language). */
module Shell {
  import opened Bytes
  import opened Codec
  import opened CodecBuffers

  const QUOTE: byte := 0x27
  const BLANK: byte := 0x20

  // ---------------------------------------------------------------- the printer

  /** Outside of quotes only a quote needs attention: close, escaped quote, open again. */
  function QuoteOne(c: byte): seq<byte> {
    if c == QUOTE then [QUOTE, BACKSLASH, QUOTE, QUOTE] else [c]
  }

  function QuoteBody(s: seq<byte>): seq<byte> {
    if s == [] then [] else QuoteOne(s[0]) + QuoteBody(s[1..])
  }

  function Quoted(s: seq<byte>): seq<byte> {
    [QUOTE] + QuoteBody(s) + [QUOTE]
  }

  function Quotes(s: seq<byte>): nat {
    if s == [] then 0 else (if s[0] == QUOTE then 1 else 0) + Quotes(s[1..])
  }

  lemma {:induction false} QuotedLength(s: seq<byte>)
    ensures |QuoteBody(s)| == |s| + 3 * Quotes(s) && |Quoted(s)| == 2 + |s| + 3 * Quotes(s)
    ensures Quotes(s) <= |s|
    decreases |s|
  {
    if s != [] {
      QuotedLength(s[1..]);
    }
  }

  /** In text: quotes around everything, and for a quote inside the four octets that close, protect and reopen. */
  lemma QuotedInText(s: seq<byte>)
    ensures Quoted(s) == Ascii("'") + QuoteBody(s) + Ascii("'") && QuoteBody([]) == []
    ensures s != [] ==> QuoteBody(s) == (if s[0] == Ascii("'")[0] then Ascii("'\\''") else [s[0]]) + QuoteBody(s[1..])
  {
    assert Ascii("'") == [0x27] && Ascii("'\\''") == [0x27, 0x5C, 0x27, 0x27];
  }

  // ---------------------------------------------------------------- the shell's reader

  /** Characters that are special to the shell outside of quotes, besides the quoting characters. */
  predicate Special(c: byte) {
    || c < 0x20 || (0x21 <= c <= 0x26) || (0x28 <= c <= 0x2A) || (0x3B <= c <= 0x3F)
    || c == 0x5B || c == 0x60 || (0x7B <= c <= 0x7E)
  }

  /** Split a command into words: blanks separate, a backslash outside of quotes and single quotes take
      the next character or everything up to the next quote literally.  None when the text uses anything
      beyond that, or ends inside quotes.  `word` is the word being read, if one has begun. */
  function Words(p: seq<byte>, word: Option<seq<byte>>, quoted: bool): Option<seq<seq<byte>>>
    decreases |p|
  {
    if p == [] then
      if quoted then None else if word.Some? then Some([word.value]) else Some([])
    else if quoted then
      if p[0] == QUOTE then Words(p[1..], word, false)
      else Words(p[1..], Extend(word, [p[0]]), true)
    else if p[0] == QUOTE then Words(p[1..], Extend(word, []), true)
    else if p[0] == BACKSLASH then
      if |p| < 2 then None else Words(p[2..], Extend(word, [p[1]]), false)
    else if p[0] == BLANK then
      var rest := Words(p[1..], None, false);
      if rest.None? then None
      else if word.Some? then Some([word.value] + rest.value) else rest
    else if Special(p[0]) then None
    else Words(p[1..], Extend(word, [p[0]]), false)
  }

  /** A command line: words, and whether it ends in the redirection of the error output. */
  datatype Line = Line(words: seq<seq<byte>>, errorsToOutput: bool)

  /** A blank followed by the redirection, at the end of the line.  The words before it must be complete, so
      the blank is not quoted, and the digit that begins the redirection begins a token. */
  const REDIRECT: seq<byte> := [0x20, 0x32, 0x3E, 0x26, 0x31]                                  //  2>&1

  function ReadLine(p: seq<byte>): Option<Line> {
    var n := |p| - |REDIRECT|;
    var redirected := n >= 0 && p[n..] == REDIRECT;
    var words := Words(if redirected then p[..n] else p, None, false);
    if words.Some? then Some(Line(words.value, redirected)) else None
  }

  function Extend(word: Option<seq<byte>>, more: seq<byte>): Option<seq<byte>> {
    if word.Some? then Some(word.value + more) else Some(more)
  }

  /** Inside the quotes of a printed string the reader collects exactly the original. */
  lemma {:induction false} ReadsBody(s: seq<byte>, rest: seq<byte>, word: seq<byte>)
    ensures Words(QuoteBody(s) + ([QUOTE] + rest), Some(word), true) == Words(rest, Some(word + s), false)
    decreases |s|
  {
    if s == [] {
      var tail := [QUOTE] + rest;
      assert QuoteBody(s) + tail == tail;
      assert tail[1..] == rest && word + s == word;
    } else {
      var tail := QuoteBody(s[1..]) + ([QUOTE] + rest);
      assert QuoteBody(s) + ([QUOTE] + rest) == QuoteOne(s[0]) + tail;
      ReadsOne(s[0], tail, word);
      ReadsBody(s[1..], rest, word + [s[0]]);
      assert (word + [s[0]]) + s[1..] == word + s;
    }
  }

  lemma ReadsOne(c: byte, tail: seq<byte>, word: seq<byte>)
    ensures Words(QuoteOne(c) + tail, Some(word), true) == Words(tail, Some(word + [c]), true)
  {
    var p := QuoteOne(c) + tail;
    if c == QUOTE {
      assert p[1..] == [BACKSLASH, QUOTE, QUOTE] + tail;
      var q := [BACKSLASH, QUOTE, QUOTE] + tail;
      assert q[2..] == [QUOTE] + tail;
      var r := [QUOTE] + tail;
      assert r[1..] == tail;
      assert (word + [c]) + [] == word + [c];
      assert Words(r, Some(word + [c]), false) == Words(tail, Some(word + [c]), true);
      assert Words(q, Some(word), false) == Words(r, Some(word + [c]), false);
    } else {
      assert p[1..] == tail;
    }
  }

  /** A quoted string is read back as one piece of a word: the string itself, whatever it contains. */
  lemma ReadsQuoted(s: seq<byte>, rest: seq<byte>)
    ensures Words(Quoted(s) + rest, None, false) == Words(rest, Some(s), false)
  {
    assert (Quoted(s) + rest)[1..] == QuoteBody(s) + ([QUOTE] + rest);
    ReadsBody(s, rest, []);
    assert [] + s == s;
  }

  /** The round trip: the shell reads the printed string as the one word it was printed from. */
  lemma ShellRoundTrip(s: seq<byte>)
    ensures Words(Quoted(s), None, false) == Some([s])
  {
    ReadsQuoted(s, []);
    assert Quoted(s) + [] == Quoted(s);
  }

  // ---------------------------------------------------------------- the printer as it runs

  method PutQuoted(dst: array<byte>, start: nat, c: byte) returns (pos: nat)
    requires start + |QuoteOne(c)| <= dst.Length
    modifies dst
    ensures pos == start + |QuoteOne(c)| && dst[..pos] == old(dst[..start]) + QuoteOne(c)
  {
    if c == QUOTE {
      pos := Put(dst, start, QUOTE);
      pos := Put(dst, pos, BACKSLASH);
      pos := Put(dst, pos, QUOTE);
      pos := Put(dst, pos, QUOTE);
    } else {
      pos := Put(dst, start, c);
    }
  }

  /** Writes the quoted string and its terminator if and only if they fit; 0 otherwise. */
  method ShellEscape(src: seq<byte>, dst: array<byte>) returns (n: nat)
    modifies dst
    ensures 2 + |src| + 3 * Quotes(src) < dst.Length ==> n == |Quoted(src)| < dst.Length && dst[..n] == Quoted(src) && dst[n] == 0
    ensures 2 + |src| + 3 * Quotes(src) >= dst.Length ==> n == 0
  {
    QuotedLength(src);
    ghost var whole := Quoted(src);
    var pos := 0;
    if pos >= dst.Length {
      return 0;
    }
    pos := Put(dst, pos, QUOTE);
    var i := 0;
    while i < |src|
      invariant 0 <= i <= |src| && 1 <= pos <= dst.Length
      invariant whole == dst[..pos] + (QuoteBody(src[i..]) + [QUOTE])
    {
      QuoteMore(dst[..pos], src, i);
      if pos + |QuoteOne(src[i])| >= dst.Length {
        return 0;
      }
      pos := PutQuoted(dst, pos, src[i]);
      i := i + 1;
    }
    if pos + 1 >= dst.Length {
      return 0;
    }
    pos := Put(dst, pos, QUOTE);
    dst[pos] := 0;
    return pos;
  }

  lemma QuoteMore(head: seq<byte>, src: seq<byte>, i: nat)
    requires i < |src|
    ensures head + (QuoteBody(src[i..]) + [QUOTE]) == (head + QuoteOne(src[i])) + (QuoteBody(src[i + 1..]) + [QUOTE])
    ensures |QuoteBody(src[i..])| >= |QuoteOne(src[i])|
  {
    assert src[i..][1..] == src[i + 1..];
  }

  // ---------------------------------------------------------------- the command

  const NMCLI: seq<byte> := [0x6E, 0x6D, 0x63, 0x6C, 0x69]                                     // nmcli
  const DEV: seq<byte> := [0x64, 0x65, 0x76]                                                   // dev
  const WIFI_WORD: seq<byte> := [0x77, 0x69, 0x66, 0x69]                                       // wifi
  const CONNECT: seq<byte> := [0x63, 0x6F, 0x6E, 0x6E, 0x65, 0x63, 0x74]                       // connect
  const PASSWORD: seq<byte> := [0x70, 0x61, 0x73, 0x73, 0x77, 0x6F, 0x72, 0x64]                // password
  const HIDDEN: seq<byte> := [0x68, 0x69, 0x64, 0x64, 0x65, 0x6E]                              // hidden
  const YES: seq<byte> := [0x79, 0x65, 0x73]                                                   // yes

  lemma Spelling()
    ensures NMCLI == Ascii("nmcli") && DEV == Ascii("dev") && WIFI_WORD == Ascii("wifi") && CONNECT == Ascii("connect")
    ensures PASSWORD == Ascii("password") && HIDDEN == Ascii("hidden") && YES == Ascii("yes")
  {}

  function Sp(word: seq<byte>): seq<byte> {
    word + [BLANK]
  }

  /** The command up to the redirection. */
  function CommandWords(c: Creds): seq<byte> {
    Sp(NMCLI) + (Sp(DEV) + (Sp(WIFI_WORD) + (Sp(CONNECT) + (Quoted(c.ssid) + AfterSsid(c)))))
  }

  function AfterSsid(c: Creds): seq<byte> {
    if c.security == SEC_OPEN then HiddenOption(c.hidden)
    else [BLANK] + (Sp(PASSWORD) + (Quoted(c.password) + HiddenOption(c.hidden)))
  }

  function HiddenOption(hidden: bool): seq<byte> {
    if hidden then [BLANK] + (Sp(HIDDEN) + YES) else []
  }

  function Command(c: Creds): seq<byte> {
    CommandWords(c) + REDIRECT
  }

  /** The arguments in the order they are read. */
  function Arguments(c: Creds): seq<seq<byte>> {
    [NMCLI, DEV, WIFI_WORD, CONNECT, c.ssid] + ArgumentsAfterSsid(c)
  }

  /** What the program should be run with. */
  function Intended(c: Creds): seq<seq<byte>> {
    [Ascii("nmcli"), Ascii("dev"), Ascii("wifi"), Ascii("connect"), c.ssid]
    + (if c.security == SEC_OPEN then [] else [Ascii("password"), c.password])
    + (if c.hidden then [Ascii("hidden"), Ascii("yes")] else [])
  }

  /** A word of lower-case letters. */
  ghost predicate Plain(w: seq<byte>) {
    forall i :: 0 <= i < |w| ==> 0x61 <= w[i] <= 0x7A
  }

  lemma {:induction false} ReadsPlain(w: seq<byte>, rest: seq<byte>, word: seq<byte>)
    requires Plain(w)
    ensures Words(w + rest, Some(word), false) == Words(rest, Some(word + w), false)
    decreases |w|
  {
    if w == [] {
      assert w + rest == rest && word + w == word;
    } else {
      assert (w + rest)[1..] == w[1..] + rest;
      ReadsPlain(w[1..], rest, word + [w[0]]);
      assert word + [w[0]] + w[1..] == word + w;
    }
  }

  lemma StartsWord(w: seq<byte>, rest: seq<byte>)
    requires Plain(w) && w != []
    ensures Words(w + rest, None, false) == Words(rest, Some(w), false)
  {
    assert (w + rest)[1..] == w[1..] + rest;
    ReadsPlain(w[1..], rest, [w[0]]);
    assert [w[0]] + w[1..] == w;
  }

  /** A plain word and a blank: one word, then the rest. */
  lemma ReadsWord(w: seq<byte>, rest: seq<byte>)
    requires Plain(w) && w != [] && Words(rest, None, false).Some?
    ensures Words(Sp(w) + rest, None, false) == Some([w] + Words(rest, None, false).value)
  {
    assert Sp(w) + rest == w + ([BLANK] + rest);
    StartsWord(w, [BLANK] + rest);
    EndsWord(w, rest);
  }

  lemma EndsWord(word: seq<byte>, rest: seq<byte>)
    requires Words(rest, None, false).Some?
    ensures Words([BLANK] + rest, Some(word), false) == Some([word] + Words(rest, None, false).value)
  {
    assert ([BLANK] + rest)[1..] == rest;
  }

  lemma ReadsHidden(word: seq<byte>, hidden: bool)
    ensures Words(HiddenOption(hidden), Some(word), false) == Some([word] + if hidden then [HIDDEN, YES] else [])
  {
    if hidden {
      assert YES + [] == YES;
      StartsWord(YES, []);
      ReadsWord(HIDDEN, YES);
      EndsWord(word, Sp(HIDDEN) + YES);
      assert [HIDDEN] + [YES] == [HIDDEN, YES];
      assert Words(YES, None, false) == Some([YES]);
    } else {
      assert [word] + [] == [word];
    }
  }

  function ArgumentsAfterSsid(c: Creds): seq<seq<byte>> {
    (if c.security == SEC_OPEN then [] else [PASSWORD, c.password])
    + (if c.hidden then [HIDDEN, YES] else [])
  }

  lemma ReadsAfterSsid(c: Creds)
    ensures Words(AfterSsid(c), Some(c.ssid), false) == Some([c.ssid] + ArgumentsAfterSsid(c))
  {
    if c.security == SEC_OPEN {
      ReadsHidden(c.ssid, c.hidden);
      var h: seq<seq<byte>> := if c.hidden then [HIDDEN, YES] else [];
      assert [] + h == h;
    } else {
      ReadsQuoted(c.password, HiddenOption(c.hidden));
      ReadsHidden(c.password, c.hidden);
      ReadsWord(PASSWORD, Quoted(c.password) + HiddenOption(c.hidden));
      EndsWord(c.ssid, Sp(PASSWORD) + (Quoted(c.password) + HiddenOption(c.hidden)));
      var h: seq<seq<byte>> := if c.hidden then [HIDDEN, YES] else [];
      assert [PASSWORD] + ([c.password] + h) == [PASSWORD, c.password] + h;
    }
  }

  lemma ReadsConnect(c: Creds)
    ensures Words(Sp(CONNECT) + (Quoted(c.ssid) + AfterSsid(c)), None, false) == Some([CONNECT] + ([c.ssid] + ArgumentsAfterSsid(c)))
  {
    ReadsAfterSsid(c);
    ReadsQuoted(c.ssid, AfterSsid(c));
    ReadsWord(CONNECT, Quoted(c.ssid) + AfterSsid(c));
  }

  lemma ReadsCommandWords(c: Creds)
    ensures Words(CommandWords(c), None, false) == Some(Arguments(c))
  {
    var connect := Sp(CONNECT) + (Quoted(c.ssid) + AfterSsid(c));
    ReadsConnect(c);
    ReadsWord(WIFI_WORD, connect);
    ReadsWord(DEV, Sp(WIFI_WORD) + connect);
    ReadsWord(NMCLI, Sp(DEV) + (Sp(WIFI_WORD) + connect));
    var rest := ArgumentsAfterSsid(c);
    assert [NMCLI] + ([DEV] + ([WIFI_WORD] + ([CONNECT] + ([c.ssid] + rest)))) == [NMCLI, DEV, WIFI_WORD, CONNECT, c.ssid] + rest;
  }

  /** Whatever the SSID and the password contain, the shell runs exactly the intended command, with its error
      output joined to its output. */
  lemma CommandRunsAsIntended(c: Creds)
    ensures ReadLine(Command(c)) == Some(Line(Intended(c), true))
  {
    var words := CommandWords(c);
    assert Command(c)[..|words|] == words && Command(c)[|words|..] == REDIRECT;
    ReadsCommandWords(c);
    Spelling();
    assert Arguments(c) == Intended(c);
  }

  /** The command in text. */
  lemma CommandInText(c: Creds)
    ensures Command(c) ==
            Ascii("nmcli dev wifi connect ") + Quoted(c.ssid)
            + (if c.security == 0 then [] else Ascii(" password ") + Quoted(c.password))
            + (if c.hidden then Ascii(" hidden yes") else []) + Ascii(" 2>&1")
  {
    FrontInText();
    OptionsInText(c);
    RedirectInText();
    InARow(Sp(NMCLI), Sp(DEV), Sp(WIFI_WORD), Sp(CONNECT), Quoted(c.ssid), AfterSsid(c));
    Unpack(Ascii("nmcli dev wifi connect "), Quoted(c.ssid),
           if c.security == 0 then [] else Ascii(" password ") + Quoted(c.password),
           if c.hidden then Ascii(" hidden yes") else [], REDIRECT);
  }

  lemma InARow(a: seq<byte>, b: seq<byte>, c: seq<byte>, d: seq<byte>, q: seq<byte>, rest: seq<byte>)
    ensures a + (b + (c + (d + (q + rest)))) == (a + b + c + d) + q + rest
  {}

  lemma Unpack(front: seq<byte>, q: seq<byte>, x: seq<byte>, y: seq<byte>, end: seq<byte>)
    ensures (front + q + (x + y)) + end == front + q + x + y + end
  {}

  lemma RedirectInText()
    ensures REDIRECT == Ascii(" 2>&1")
  {}

  lemma FrontInText()
    ensures Sp(NMCLI) + Sp(DEV) + Sp(WIFI_WORD) + Sp(CONNECT) == Ascii("nmcli dev wifi connect ")
  {}

  lemma OptionsInText(c: Creds)
    ensures AfterSsid(c) ==
            (if c.security == 0 then [] else Ascii(" password ") + Quoted(c.password))
            + (if c.hidden then Ascii(" hidden yes") else [])
  {
    HiddenInText();
    PasswordWordInText();
    Join([BLANK], Sp(PASSWORD), Quoted(c.password), HiddenOption(c.hidden));
  }

  lemma HiddenInText()
    ensures HiddenOption(true) == Ascii(" hidden yes") && HiddenOption(false) == []
  {}

  lemma PasswordWordInText()
    ensures [BLANK] + Sp(PASSWORD) == Ascii(" password ")
  {}

  lemma Join(a: seq<byte>, b: seq<byte>, q: seq<byte>, rest: seq<byte>)
    ensures a + (b + (q + rest)) == (a + b) + q + rest && [] + rest == rest
  {}

  /** For everything the parser can return, quoting fits its buffers and the command is never truncated. */
  lemma CommandFits(c: Creds)
    requires |c.ssid| <= SSID_MAX && |c.password| <= PASS_MAX
    ensures |Quoted(c.ssid)| < 256 && |Quoted(c.password)| < 256 && |Command(c)| < 1024
  {
    QuotedLength(c.ssid);
    QuotedLength(c.password);
  }

  /** What the two buffers cannot hold is refused. */
  predicate Quotable(c: Creds) {
    && 2 + |c.ssid| + 3 * Quotes(c.ssid) < 256
    && (c.security != SEC_OPEN ==> 2 + |c.password| + 3 * Quotes(c.password) < 256)
  }

  /** The command assembly: refuse what cannot be quoted, cut what does not fit; for everything the parser
      can return it is the whole command. */
  method BuildCommand(c: Creds) returns (cmd: Option<seq<byte>>)
    ensures cmd == if Quotable(c) then Some(Take(Command(c), 1023)) else None
    ensures |c.ssid| <= SSID_MAX && |c.password| <= PASS_MAX ==> cmd == Some(Command(c))
  {
    QuotedLength(c.ssid);
    QuotedLength(c.password);
    var ssidBuf := new byte[256](_ => 0);
    var n := ShellEscape(c.ssid, ssidBuf);
    if n == 0 {
      return None;
    }
    var after := HiddenOption(c.hidden);
    if c.security != SEC_OPEN {
      var passBuf := new byte[256](_ => 0);
      var m := ShellEscape(c.password, passBuf);
      if m == 0 {
        return None;
      }
      after := [BLANK] + (Sp(PASSWORD) + (passBuf[..m] + after));
    }
    var text := Sp(NMCLI) + (Sp(DEV) + (Sp(WIFI_WORD) + (Sp(CONNECT) + (ssidBuf[..n] + after)))) + REDIRECT;
    assert text == Command(c);
    return Some(Take(text, 1023));
  }
}
