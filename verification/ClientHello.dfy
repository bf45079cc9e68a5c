/** Server-name extraction from a peeked TLS ClientHello.

    The buffer is whatever has arrived so far, so the interesting questions are what
    the parser answers on a complete message (DecodesEveryHello) and exactly how the
    answer depends on where the buffer was cut (TruncationLaw). */
module ClientHello {
  import opened Wrappers

  newtype byte = b: int | 0 <= b < 256
  type Bytes = seq<byte>

  /** A half-open range of buffer positions. */
  datatype Span = Span(lo: nat, hi: nat)

  /** Where the extension block starts and where its length field says it ends. */
  datatype Block = Block(pos: nat, end: nat)

  function ReadU16(buf: Bytes, pos: nat): (v: nat)
    requires pos + 2 <= |buf|
    ensures v < 0x1_0000
  {
    buf[pos] as int * 256 + buf[pos + 1] as int
  }

  function Min(a: nat, b: nat): nat {
    if a <= b then a else b
  }

  // ---------------------------------------------------------------- UTF-8

  predicate Continuation(b: byte) {
    0x80 <= b < 0xC0
  }

  /** Length of the well-formed UTF-8 sequence that s starts with, 0 if there is none
      (table 3-7 of the Unicode standard, section 4 of RFC 3629). */
  function ScalarLength(s: Bytes): (n: nat)
    requires s != []
    ensures n <= |s|
  {
    var b := s[0];
    if b < 0x80 then 1
    else if |s| >= 2 && 0xC2 <= b < 0xE0 && Continuation(s[1]) then 2
    else if |s| >= 3 && 0xE0 <= b < 0xF0 && Continuation(s[1]) && Continuation(s[2])
            && (b == 0xE0 ==> 0xA0 <= s[1]) && (b == 0xED ==> s[1] < 0xA0) then 3
    else if |s| >= 4 && 0xF0 <= b < 0xF5 && Continuation(s[1]) && Continuation(s[2]) && Continuation(s[3])
            && (b == 0xF0 ==> 0x90 <= s[1]) && (b == 0xF4 ==> s[1] < 0x90) then 4
    else 0
  }

  predicate ValidUtf8(s: Bytes) {
    s == [] || (ScalarLength(s) > 0 && ValidUtf8(s[ScalarLength(s)..]))
  }

  /** A Unicode scalar value: a code point that is not a surrogate. */
  predicate IsScalar(n: nat) {
    n < 0xD800 || 0xE000 <= n < 0x11_0000
  }

  /** The encoding of a scalar value (section 3 of RFC 3629). */
  function EncodeScalar(n: nat): (r: Bytes)
    requires IsScalar(n)
    ensures 1 <= |r| <= 4
  {
    if n < 0x80 then [n as byte]
    else if n < 0x800 then [(0xC0 + n / 64) as byte, (0x80 + n % 64) as byte]
    else if n < 0x1_0000 then [(0xE0 + n / 4096) as byte, (0x80 + n / 64 % 64) as byte, (0x80 + n % 64) as byte]
    else [(0xF0 + n / 0x4_0000) as byte, (0x80 + n / 4096 % 64) as byte, (0x80 + n / 64 % 64) as byte, (0x80 + n % 64) as byte]
  }

  ghost predicate AreScalars(ns: seq<nat>) {
    forall i :: 0 <= i < |ns| ==> IsScalar(ns[i])
  }

  function EncodeScalars(ns: seq<nat>): Bytes
    requires AreScalars(ns)
  {
    if ns == [] then [] else EncodeScalar(ns[0]) + EncodeScalars(ns[1..])
  }

  /** The bytes encode some sequence of Unicode scalar values. */
  ghost predicate EncodesText(s: Bytes) {
    exists ns :: AreScalars(ns) && s == EncodeScalars(ns)
  }

  /** An encoded scalar value is recognised, whatever follows it. */
  lemma RecognisesScalar(n: nat, rest: Bytes)
    requires IsScalar(n)
    ensures ScalarLength(EncodeScalar(n) + rest) == |EncodeScalar(n)|
  {
    var s := EncodeScalar(n) + rest;
    assert s[0] == EncodeScalar(n)[0];
    assert n >= 0x80 ==> s[1] == EncodeScalar(n)[1];
    assert n >= 0x800 ==> s[2] == EncodeScalar(n)[2];
    assert n >= 0x1_0000 ==> s[3] == EncodeScalar(n)[3];
  }

  lemma TwoDigits(n: nat, a: nat, b: nat)
    requires n == a * 64 + b && b < 64
    ensures n / 64 == a && n % 64 == b
  {
  }

  lemma ThreeDigits(n: nat, a: nat, b: nat, c: nat)
    requires n == a * 4096 + b * 64 + c && b < 64 && c < 64
    ensures n / 4096 == a && n / 64 % 64 == b && n % 64 == c
  {
    TwoDigits(n, a * 64 + b, c);
    TwoDigits(a * 64 + b, a, b);
  }

  lemma FourDigits(n: nat, a: nat, b: nat, c: nat, d: nat)
    requires n == a * 0x4_0000 + b * 4096 + c * 64 + d && b < 64 && c < 64 && d < 64
    ensures n / 0x4_0000 == a && n / 4096 % 64 == b && n / 64 % 64 == c && n % 64 == d
  {
    ThreeDigits(n, a * 64 + b, c, d);
    TwoDigits(a * 64 + b, a, b);
  }

  lemma TwoBytes(s: Bytes) returns (n: nat)
    requires s != [] && ScalarLength(s) == 2
    ensures IsScalar(n) && s[..2] == EncodeScalar(n)
  {
    var a, b := s[0] as int - 0xC0, s[1] as int - 0x80;
    n := a * 64 + b;
    TwoDigits(n, a, b);
  }

  lemma ThreeBytes(s: Bytes) returns (n: nat)
    requires s != [] && ScalarLength(s) == 3
    ensures IsScalar(n) && s[..3] == EncodeScalar(n)
  {
    var a, b, c := s[0] as int - 0xE0, s[1] as int - 0x80, s[2] as int - 0x80;
    n := a * 4096 + b * 64 + c;
    ThreeDigits(n, a, b, c);
    assert a == 0 ==> b >= 32;
    assert a == 13 ==> b < 32;
  }

  lemma FourBytes(s: Bytes) returns (n: nat)
    requires s != [] && ScalarLength(s) == 4
    ensures IsScalar(n) && s[..4] == EncodeScalar(n)
  {
    var a, b, c, d := s[0] as int - 0xF0, s[1] as int - 0x80, s[2] as int - 0x80, s[3] as int - 0x80;
    n := a * 0x4_0000 + b * 4096 + c * 64 + d;
    FourDigits(n, a, b, c, d);
    assert a == 0 ==> b >= 16;
    assert a == 4 ==> b < 16;
  }

  /** What is recognised is an encoded scalar value. */
  lemma RecognisedIsScalar(s: Bytes) returns (n: nat)
    requires s != [] && ScalarLength(s) > 0
    ensures IsScalar(n) && s[..ScalarLength(s)] == EncodeScalar(n)
  {
    if ScalarLength(s) == 1 {
      n := s[0] as int;
    } else if ScalarLength(s) == 2 {
      n := TwoBytes(s);
    } else if ScalarLength(s) == 3 {
      n := ThreeBytes(s);
    } else {
      n := FourBytes(s);
    }
  }

  /** The test accepts exactly the encodings of sequences of Unicode scalar values. */
  lemma {:induction false} ValidExactlyWhenText(s: Bytes)
    ensures ValidUtf8(s) <==> EncodesText(s)
  {
    if ValidUtf8(s) {
      var ns := Scalars(s);
    }
    if ns :| AreScalars(ns) && s == EncodeScalars(ns) {
      EncodedIsValid(ns);
    }
  }

  lemma {:induction false} Scalars(s: Bytes) returns (ns: seq<nat>)
    requires ValidUtf8(s)
    ensures AreScalars(ns) && s == EncodeScalars(ns)
  {
    if s == [] {
      ns := [];
    } else {
      var n := RecognisedIsScalar(s);
      var later := Scalars(s[ScalarLength(s)..]);
      ns := [n] + later;
      assert ns[1..] == later && s == s[..ScalarLength(s)] + s[ScalarLength(s)..];
    }
  }

  lemma {:induction false} EncodedIsValid(ns: seq<nat>)
    requires AreScalars(ns)
    ensures ValidUtf8(EncodeScalars(ns))
  {
    if ns != [] {
      EncodedIsValid(ns[1..]);
      RecognisesScalar(ns[0], EncodeScalars(ns[1..]));
      var s := EncodeScalars(ns);
      assert s[|EncodeScalar(ns[0])|..] == EncodeScalars(ns[1..]);
    }
  }

  /** Host names on the wire are ASCII, hence always convertible. */
  lemma {:induction false} AsciiIsUtf8(s: Bytes)
    requires forall i :: 0 <= i < |s| ==> s[i] < 0x80
    ensures ValidUtf8(s)
  {
    if s != [] {
      AsciiIsUtf8(s[1..]);
    }
  }

  // ---------------------------------------------------------------- what the parser looks for

  /** Walks the fixed and length-prefixed fields before the extensions. */
  function FindExtensions(buf: Bytes): (r: Option<Block>)
    ensures r.Some? ==> r.value.pos <= |buf| && r.value.pos <= r.value.end
  {
    if |buf| < 5 || buf[0] != 0x16 then None
    else if |buf| < 9 || buf[5] != 0x01 then None
    else if |buf| < 44 then None
    else
      var ciphers := 44 + buf[43] as nat;
      if |buf| < ciphers + 2 then None
      else
        var compression := ciphers + 2 + ReadU16(buf, ciphers);
        if |buf| < compression + 1 then None
        else
          var extensions := compression + 1 + buf[compression] as nat;
          if |buf| < extensions + 2 then None
          else Some(Block(extensions + 2, extensions + 2 + ReadU16(buf, extensions)))
  }

  /** The first host_name entry that lies wholly inside buf[pos..end]. */
  function FindHostName(buf: Bytes, pos: nat, end: nat): (r: Option<Span>)
    requires end <= |buf|
    ensures r.Some? ==> pos <= r.value.lo <= r.value.hi <= end
    decreases end - pos
  {
    if end < pos + 3 then None
    else
      var next := pos + 3 + ReadU16(buf, pos + 1);
      if buf[pos] == 0 && next <= end then Some(Span(pos + 3, next))
      else FindHostName(buf, next, end)
  }

  /** The host name of the first server_name extension. */
  function FindInExtensions(buf: Bytes, pos: nat, end: nat): (r: Option<Span>)
    ensures r.Some? ==> pos <= r.value.lo <= r.value.hi <= |buf|
    decreases |buf| - pos
  {
    if |buf| < pos + 4 || end < pos + 4 then None
    else
      var len := ReadU16(buf, pos + 2);
      if ReadU16(buf, pos) == 0 then FindHostName(buf, pos + 6, Min(|buf|, pos + 4 + len))
      else FindInExtensions(buf, pos + 4 + len, end)
  }

  function Locate(buf: Bytes): (r: Option<Span>)
    ensures r.Some? ==> r.value.lo <= r.value.hi <= |buf|
  {
    var block := FindExtensions(buf);
    if block.None? then None else FindInExtensions(buf, block.value.pos, block.value.end)
  }

  /** A located name is returned only when it converts to a string. */
  function NameAt(buf: Bytes, at: Option<Span>): Option<Bytes>
    requires at.Some? ==> at.value.lo <= at.value.hi <= |buf|
  {
    if at.Some? && ValidUtf8(buf[at.value.lo..at.value.hi]) then Some(buf[at.value.lo..at.value.hi]) else None
  }

  function ServerNameOf(buf: Bytes): Option<Bytes> {
    NameAt(buf, Locate(buf))
  }

  // ---------------------------------------------------------------- the parser

  method ParseSniExtension(data: Bytes) returns (r: Option<Bytes>)
    ensures r == NameAt(data, FindHostName(data, 2, |data|))
  {
    if |data| < 2 {
      return None;
    }
    var pos := 2;
    while pos + 3 <= |data|
      invariant FindHostName(data, 2, |data|) == FindHostName(data, pos, |data|)
      decreases |data| - pos
    {
      var nameType := data[pos];
      var nameLen := ReadU16(data, pos + 1);
      pos := pos + 3;
      if nameType == 0x00 {
        if pos + nameLen <= |data| {
          var name := data[pos..pos + nameLen];
          return if ValidUtf8(name) then Some(name) else None;
        }
      }
      pos := pos + nameLen;
    }
    return None;
  }

  lemma SliceOfSlice(s: Bytes, lo: nat, hi: nat, a: nat, b: nat)
    requires lo <= hi <= |s| && a <= b <= hi - lo
    ensures s[lo..hi][a..b] == s[lo + a..lo + b]
  {
    assert forall i :: 0 <= i < b - a ==> s[lo..hi][a..b][i] == s[lo + a..lo + b][i];
  }

  function Shift(r: Option<Span>, base: nat): Option<Span> {
    if r.None? then None else Some(Span(r.value.lo + base, r.value.hi + base))
  }

  /** Searching a slice is searching that part of the buffer. */
  lemma {:induction false} HostNameInSlice(buf: Bytes, lo: nat, hi: nat, pos: nat)
    requires lo <= hi <= |buf|
    ensures FindHostName(buf, lo + pos, hi) == Shift(FindHostName(buf[lo..hi], pos, hi - lo), lo)
    decreases hi - pos
  {
    if lo + pos + 3 <= hi {
      assert ReadU16(buf[lo..hi], pos + 1) == ReadU16(buf, lo + pos + 1);
      HostNameInSlice(buf, lo, hi, pos + 3 + ReadU16(buf, lo + pos + 1));
    }
  }

  lemma NameInSlice(buf: Bytes, lo: nat, hi: nat, at: Option<Span>)
    requires lo <= hi <= |buf| && (at.Some? ==> at.value.lo <= at.value.hi <= hi - lo)
    ensures NameAt(buf[lo..hi], at) == NameAt(buf, Shift(at, lo))
  {
    if at.Some? {
      SliceOfSlice(buf, lo, hi, at.value.lo, at.value.hi);
    }
  }

  lemma ServerNameInSlice(buf: Bytes, lo: nat, hi: nat)
    requires lo <= hi <= |buf|
    ensures NameAt(buf[lo..hi], FindHostName(buf[lo..hi], 2, hi - lo)) == NameAt(buf, FindHostName(buf, lo + 2, hi))
  {
    HostNameInSlice(buf, lo, hi, 2);
    NameInSlice(buf, lo, hi, FindHostName(buf[lo..hi], 2, hi - lo));
  }

  /** The loop over the extension block. */
  method ParseExtensions(buf: Bytes, start: nat, extensionsEnd: nat) returns (r: Option<Bytes>)
    ensures r == NameAt(buf, FindInExtensions(buf, start, extensionsEnd))
  {
    var pos := start;
    while pos + 4 <= |buf| && pos + 4 <= extensionsEnd
      invariant FindInExtensions(buf, start, extensionsEnd) == FindInExtensions(buf, pos, extensionsEnd)
      decreases |buf| - pos
    {
      var extType := ReadU16(buf, pos);
      var extLen := ReadU16(buf, pos + 2);
      pos := pos + 4;
      if extType == 0x0000 {
        assert FindInExtensions(buf, start, extensionsEnd) == FindHostName(buf, pos + 2, Min(|buf|, pos + extLen));
        r := ParseSniExtension(buf[pos..Min(|buf|, pos + extLen)]);
        ServerNameInSlice(buf, pos, Min(|buf|, pos + extLen));
        return;
      }
      pos := pos + extLen;
    }
    return None;
  }

  /** The cursor's way from the record header to the extension block. */
  method SkipToExtensions(buf: Bytes) returns (r: Option<Block>)
    ensures r == FindExtensions(buf)
  {
    var pos: nat := 0;
    if |buf| < 5 {
      return None;
    }
    if buf[0] != 0x16 {
      return None;
    }
    pos := pos + 5;
    if |buf| < pos + 4 {
      return None;
    }
    if buf[pos] != 0x01 {
      return None;
    }
    pos := pos + 4;
    if |buf| < pos + 2 {
      return None;
    }
    pos := pos + 2;
    if |buf| < pos + 32 {
      return None;
    }
    pos := pos + 32;
    if |buf| < pos + 1 {
      return None;
    }
    pos := pos + 1 + buf[pos] as nat;
    if |buf| < pos + 2 {
      return None;
    }
    pos := pos + 2 + ReadU16(buf, pos);
    if |buf| < pos + 1 {
      return None;
    }
    pos := pos + 1 + buf[pos] as nat;
    if |buf| < pos + 2 {
      return None;
    }
    return Some(Block(pos + 2, pos + 2 + ReadU16(buf, pos)));
  }

  /** Every read is in range for every byte string: there is no precondition. */
  method ParseSniFromClientHello(buf: Bytes) returns (r: Option<Bytes>)
    ensures r == ServerNameOf(buf)
  {
    var block := SkipToExtensions(buf);
    if block.None? {
      return None;
    }
    r := ParseExtensions(buf, block.value.pos, block.value.end);
  }

  // ---------------------------------------------------------------- truncation

  function Before(r: Option<Span>, k: nat): Option<Span> {
    if r.Some? && r.value.hi <= k then r else None
  }

  lemma {:induction false} HostNameTruncation(buf: Bytes, pos: nat, end: nat, k: nat)
    requires k <= |buf| && end <= |buf|
    ensures FindHostName(buf[..k], pos, Min(k, end)) == Before(FindHostName(buf, pos, end), k)
    decreases |buf| - pos
  {
    if pos + 3 <= k {
      assert ReadU16(buf[..k], pos + 1) == ReadU16(buf, pos + 1);
      HostNameTruncation(buf, pos + 3 + ReadU16(buf, pos + 1), end, k);
    }
  }

  lemma {:induction false} ExtensionsTruncation(buf: Bytes, pos: nat, end: nat, k: nat)
    requires k <= |buf|
    ensures FindInExtensions(buf[..k], pos, end) == Before(FindInExtensions(buf, pos, end), k)
    decreases |buf| - pos
  {
    if pos + 4 <= k && pos + 4 <= end {
      var len := ReadU16(buf, pos + 2);
      assert ReadU16(buf[..k], pos + 2) == len && ReadU16(buf[..k], pos) == ReadU16(buf, pos);
      HostNameTruncation(buf, pos + 6, Min(|buf|, pos + 4 + len), k);
      ExtensionsTruncation(buf, pos + 4 + len, end, k);
    }
  }

  lemma FrameTruncation(buf: Bytes, k: nat)
    requires k <= |buf|
    ensures FindExtensions(buf[..k]) ==
            if FindExtensions(buf).Some? && FindExtensions(buf).value.pos <= k then FindExtensions(buf) else None
  {
  }

  /** The exact effect of peeking too few bytes: cutting the buffer after k bytes keeps the
      answer when the host name ends within the k bytes, and gives None otherwise. In
      particular an answer never changes as more bytes arrive, and it is never wrong. */
  lemma TruncationLaw(buf: Bytes, k: nat)
    requires k <= |buf|
    ensures Locate(buf[..k]) == Before(Locate(buf), k)
    ensures ServerNameOf(buf[..k]) == if Before(Locate(buf), k).Some? then ServerNameOf(buf) else None
    ensures ServerNameOf(buf[..k]).Some? ==> ServerNameOf(buf) == ServerNameOf(buf[..k])
  {
    FrameTruncation(buf, k);
    var block := FindExtensions(buf);
    if block.Some? {
      ExtensionsTruncation(buf, block.value.pos, block.value.end, k);
      var at := FindInExtensions(buf, block.value.pos, block.value.end);
      if at.Some? && at.value.hi <= k {
        assert buf[..k][at.value.lo..at.value.hi] == buf[at.value.lo..at.value.hi];
      }
    }
  }

  // ---------------------------------------------------------------- the message on the wire

  /** One entry of a ServerNameList (section 3 of RFC 6066); kind 0 is host_name. */
  datatype ServerName = ServerName(kind: byte, name: Bytes)

  datatype Extension =
    | ServerNames(names: seq<ServerName>)
    | Other(kind: nat, body: Bytes)

  /** The variable fields of a ClientHello (section 7.4.1.2 of RFC 5246). */
  datatype Hello = Hello(
    version: Bytes, random: Bytes, sessionId: Bytes, cipherSuites: Bytes, compression: Bytes,
    extensions: seq<Extension>)

  /** Big-endian, dropping the bits that do not fit. */
  function U16(n: nat): (r: Bytes)
    ensures |r| == 2
  {
    [((n / 256) % 256) as byte, (n % 256) as byte]
  }

  function U24(n: nat): (r: Bytes)
    ensures |r| == 3
  {
    [((n / 0x1_0000) % 256) as byte] + U16(n)
  }

  function EncodeNames(names: seq<ServerName>): Bytes {
    if names == [] then []
    else [names[0].kind] + U16(|names[0].name|) + names[0].name + EncodeNames(names[1..])
  }

  function Kind(e: Extension): nat {
    if e.ServerNames? then 0 else e.kind
  }

  function Body(e: Extension): Bytes {
    if e.ServerNames? then U16(|EncodeNames(e.names)|) + EncodeNames(e.names) else e.body
  }

  function EncodeExtensions(es: seq<Extension>): Bytes {
    if es == [] then []
    else U16(Kind(es[0])) + U16(|Body(es[0])|) + Body(es[0]) + EncodeExtensions(es[1..])
  }

  function EncodePreamble(h: Hello): Bytes {
    h.version + h.random
    + [(|h.sessionId| % 256) as byte] + h.sessionId
    + U16(|h.cipherSuites|) + h.cipherSuites
    + [(|h.compression| % 256) as byte] + h.compression
  }

  function EncodeBody(h: Hello): Bytes {
    EncodePreamble(h) + U16(|EncodeExtensions(h.extensions)|) + EncodeExtensions(h.extensions)
  }

  function EncodeHandshake(h: Hello): Bytes {
    [0x01] + U24(|EncodeBody(h)|) + EncodeBody(h)
  }

  function EncodeRecord(h: Hello): Bytes {
    [0x16, 0x03, 0x01] + U16(|EncodeHandshake(h)|) + EncodeHandshake(h)
  }

  /** Every length-prefixed field fits its prefix, and Other really is another extension. */
  ghost predicate Encodable(h: Hello) {
    && |h.version| == 2 && |h.random| == 32
    && |h.sessionId| < 256 && |h.cipherSuites| < 0x1_0000 && |h.compression| < 256
    && |EncodeExtensions(h.extensions)| < 0x1_0000
    && forall i :: 0 <= i < |h.extensions| ==> EncodableExtension(h.extensions[i])
  }

  ghost predicate EncodableExtension(e: Extension) {
    && (e.Other? ==> 0 < e.kind < 0x1_0000)
    && (e.ServerNames? ==> forall j :: 0 <= j < |e.names| ==> |e.names[j].name| < 0x1_0000)
  }

  // What the message says, read off its structure.

  function SpanInNames(names: seq<ServerName>, at: nat): Option<Span> {
    if names == [] then None
    else if names[0].kind == 0 then Some(Span(at + 3, at + 3 + |names[0].name|))
    else SpanInNames(names[1..], at + 3 + |names[0].name|)
  }

  function SpanInExtensions(es: seq<Extension>, at: nat): Option<Span> {
    if es == [] then None
    else if es[0].ServerNames? then SpanInNames(es[0].names, at + 6)
    else SpanInExtensions(es[1..], at + 4 + |es[0].body|)
  }

  /** The first host_name of a name list, and of the first server_name extension. */
  function HostOfNames(names: seq<ServerName>): Option<Bytes> {
    if names == [] then None
    else if names[0].kind == 0 then Some(names[0].name)
    else HostOfNames(names[1..])
  }

  function HostOf(es: seq<Extension>): Option<Bytes> {
    if es == [] then None
    else if es[0].ServerNames? then HostOfNames(es[0].names)
    else HostOf(es[1..])
  }

  /** The name, if it is text. */
  ghost function Convertible(host: Option<Bytes>): Option<Bytes> {
    if host.Some? && EncodesText(host.value) then host else None
  }

  /** Position of the host name in the encoded record. */
  function HostSpan(h: Hello): Option<Span> {
    SpanInExtensions(h.extensions, 11 + |EncodePreamble(h)|)
  }

  // ---------------------------------------------------------------- decoding what was encoded

  ghost predicate At(buf: Bytes, pos: nat, part: Bytes) {
    pos + |part| <= |buf| && forall i :: 0 <= i < |part| ==> buf[pos + i] == part[i]
  }

  /** A concatenation found at pos is its two halves found one after the other. */
  lemma AtSplit(buf: Bytes, pos: nat, a: Bytes, b: Bytes)
    requires At(buf, pos, a + b)
    ensures At(buf, pos, a) && At(buf, pos + |a|, b)
  {
    forall i | 0 <= i < |a|
      ensures buf[pos + i] == a[i]
    {
      assert (a + b)[i] == a[i];
    }
    forall i | 0 <= i < |b|
      ensures buf[pos + |a| + i] == b[i]
    {
      assert (a + b)[|a| + i] == b[i];
    }
  }

  lemma AtU16(buf: Bytes, pos: nat, n: nat)
    requires n < 0x1_0000 && At(buf, pos, U16(n))
    ensures pos + 2 <= |buf| && ReadU16(buf, pos) == n
  {
    assert buf[pos + 0] == U16(n)[0] && buf[pos + 1] == U16(n)[1];
  }

  lemma AtByte(buf: Bytes, pos: nat, b: byte)
    requires At(buf, pos, [b])
    ensures pos < |buf| && buf[pos] == b
  {
    assert buf[pos + 0] == [b][0];
  }

  lemma ReadsName(buf: Bytes, pos: nat, n: ServerName, rest: Bytes)
    requires |n.name| < 0x1_0000
    requires At(buf, pos, [n.kind] + U16(|n.name|) + n.name + rest)
    ensures pos + 3 + |n.name| <= |buf|
    ensures buf[pos] == n.kind && ReadU16(buf, pos + 1) == |n.name|
    ensures At(buf, pos + 3, n.name) && At(buf, pos + 3 + |n.name|, rest)
  {
    AtSplit(buf, pos, [n.kind] + U16(|n.name|) + n.name, rest);
    AtSplit(buf, pos, [n.kind] + U16(|n.name|), n.name);
    AtSplit(buf, pos, [n.kind], U16(|n.name|));
    AtByte(buf, pos, n.kind);
    AtU16(buf, pos + 1, |n.name|);
  }

  lemma SpanPastName(names: seq<ServerName>, at: nat)
    requires names != [] && names[0].kind != 0
    ensures SpanInNames(names, at) == SpanInNames(names[1..], at + 3 + |names[0].name|)
    ensures HostOfNames(names) == HostOfNames(names[1..])
  {
  }

  lemma {:induction false} DecodesNames(buf: Bytes, pos: nat, end: nat, names: seq<ServerName>)
    requires At(buf, pos, EncodeNames(names)) && end == pos + |EncodeNames(names)|
    requires forall j :: 0 <= j < |names| ==> |names[j].name| < 0x1_0000
    ensures FindHostName(buf, pos, end) == SpanInNames(names, pos)
    decreases |names|
  {
    if names != [] {
      ReadsName(buf, pos, names[0], EncodeNames(names[1..]));
      if names[0].kind != 0 {
        SpanPastName(names, pos);
        DecodesNames(buf, pos + 3 + |names[0].name|, end, names[1..]);
      }
    }
  }

  lemma {:induction false} HostAtSpan(buf: Bytes, pos: nat, names: seq<ServerName>)
    requires At(buf, pos, EncodeNames(names))
    requires forall j :: 0 <= j < |names| ==> |names[j].name| < 0x1_0000
    ensures var at := SpanInNames(names, pos);
            && (at.Some? ==> at.value.lo <= at.value.hi <= |buf|)
            && NameAt(buf, at) == Convertible(HostOfNames(names))
    decreases |names|
  {
    if names != [] {
      ReadsName(buf, pos, names[0], EncodeNames(names[1..]));
      if names[0].kind != 0 {
        SpanPastName(names, pos);
        HostAtSpan(buf, pos + 3 + |names[0].name|, names[1..]);
      } else {
        assert buf[pos + 3..pos + 3 + |names[0].name|] == names[0].name;
        ValidExactlyWhenText(names[0].name);
      }
    }
  }

  lemma ReadsExtension(buf: Bytes, pos: nat, e: Extension, rest: Bytes)
    requires Kind(e) < 0x1_0000 && |Body(e)| < 0x1_0000
    requires At(buf, pos, U16(Kind(e)) + U16(|Body(e)|) + Body(e) + rest)
    ensures pos + 4 + |Body(e)| <= |buf|
    ensures ReadU16(buf, pos) == Kind(e) && ReadU16(buf, pos + 2) == |Body(e)|
    ensures At(buf, pos + 4, Body(e)) && At(buf, pos + 4 + |Body(e)|, rest)
  {
    AtSplit(buf, pos, U16(Kind(e)) + U16(|Body(e)|) + Body(e), rest);
    AtSplit(buf, pos, U16(Kind(e)) + U16(|Body(e)|), Body(e));
    AtSplit(buf, pos, U16(Kind(e)), U16(|Body(e)|));
    AtU16(buf, pos, Kind(e));
    AtU16(buf, pos + 2, |Body(e)|);
  }

  lemma AtServerName(buf: Bytes, pos: nat, end: nat, stop: nat)
    requires pos + 4 <= stop <= |buf| && pos + 4 <= end
    requires ReadU16(buf, pos) == 0 && ReadU16(buf, pos + 2) == stop - pos - 4
    ensures FindInExtensions(buf, pos, end) == FindHostName(buf, pos + 6, stop)
  {
  }

  lemma DecodesServerNameExtension(buf: Bytes, pos: nat, end: nat, names: seq<ServerName>)
    requires |EncodeNames(names)| < 0xFFFE && At(buf, pos + 4, Body(ServerNames(names)))
    requires pos + 4 <= end && ReadU16(buf, pos) == 0 && ReadU16(buf, pos + 2) == |Body(ServerNames(names))|
    requires forall j :: 0 <= j < |names| ==> |names[j].name| < 0x1_0000
    ensures FindInExtensions(buf, pos, end) == SpanInNames(names, pos + 6)
  {
    AtSplit(buf, pos + 4, U16(|EncodeNames(names)|), EncodeNames(names));
    var stop := pos + 6 + |EncodeNames(names)|;
    AtServerName(buf, pos, end, stop);
    DecodesNames(buf, pos + 6, stop, names);
  }

  lemma SpanPastOther(es: seq<Extension>, at: nat)
    requires es != [] && es[0].Other?
    ensures SpanInExtensions(es, at) == SpanInExtensions(es[1..], at + 4 + |Body(es[0])|)
    ensures HostOf(es) == HostOf(es[1..])
  {
  }

  lemma {:induction false} DecodesExtensions(buf: Bytes, pos: nat, end: nat, es: seq<Extension>)
    requires At(buf, pos, EncodeExtensions(es)) && |EncodeExtensions(es)| < 0x1_0000
    requires end == pos + |EncodeExtensions(es)|
    requires forall i :: 0 <= i < |es| ==> EncodableExtension(es[i])
    ensures FindInExtensions(buf, pos, end) == SpanInExtensions(es, pos)
    decreases |es|
  {
    if es != [] {
      ReadsExtension(buf, pos, es[0], EncodeExtensions(es[1..]));
      if es[0].ServerNames? {
        DecodesServerNameExtension(buf, pos, end, es[0].names);
      } else {
        SpanPastOther(es, pos);
        DecodesExtensions(buf, pos + 4 + |Body(es[0])|, end, es[1..]);
      }
    }
  }

  lemma {:induction false} HostAtExtensionSpan(buf: Bytes, pos: nat, es: seq<Extension>)
    requires At(buf, pos, EncodeExtensions(es)) && |EncodeExtensions(es)| < 0x1_0000
    requires forall i :: 0 <= i < |es| ==> EncodableExtension(es[i])
    ensures var at := SpanInExtensions(es, pos);
            && (at.Some? ==> at.value.lo <= at.value.hi <= |buf|)
            && NameAt(buf, at) == Convertible(HostOf(es))
    decreases |es|
  {
    if es != [] {
      ReadsExtension(buf, pos, es[0], EncodeExtensions(es[1..]));
      if es[0].ServerNames? {
        AtSplit(buf, pos + 4, U16(|EncodeNames(es[0].names)|), EncodeNames(es[0].names));
        HostAtSpan(buf, pos + 6, es[0].names);
      } else {
        SpanPastOther(es, pos);
        HostAtExtensionSpan(buf, pos + 4 + |Body(es[0])|, es[1..]);
      }
    }
  }

  lemma ReadsHead(h: Hello, buf: Bytes, pre: Bytes, es: Bytes)
    requires EncodeRecord(h) <= buf && pre == EncodePreamble(h) && es == EncodeExtensions(h.extensions)
    ensures |buf| >= 9 && buf[0] == 0x16 && buf[5] == 0x01 && At(buf, 9, pre + U16(|es|) + es)
  {
    var head := [0x16, 0x03, 0x01] + U16(|EncodeHandshake(h)|) + [0x01] + U24(|EncodeBody(h)|);
    assert |head| == 9 && head[0] == 0x16 && head[5] == 0x01;
    assert EncodeRecord(h) == head + EncodeBody(h);
  }

  lemma FrameFromFields(buf: Bytes, session: nat, ciphers: nat, compression: nat, extensions: nat)
    requires |buf| >= 44 && buf[0] == 0x16 && buf[5] == 0x01 && buf[43] as int == session
    requires |buf| >= 46 + session && ReadU16(buf, 44 + session) == ciphers
    requires |buf| >= 47 + session + ciphers && buf[46 + session + ciphers] as int == compression
    requires |buf| >= 49 + session + ciphers + compression
    requires ReadU16(buf, 47 + session + ciphers + compression) == extensions
    ensures var at := 49 + session + ciphers + compression;
            FindExtensions(buf) == Some(Block(at, at + extensions))
  {
  }

  lemma DecodesBlock(buf: Bytes, at: nat, es: seq<Extension>)
    requires FindExtensions(buf) == Some(Block(at, at + |EncodeExtensions(es)|)) && At(buf, at, EncodeExtensions(es))
    requires |EncodeExtensions(es)| < 0x1_0000 && forall i :: 0 <= i < |es| ==> EncodableExtension(es[i])
    ensures Locate(buf) == SpanInExtensions(es, at)
    ensures ServerNameOf(buf) == Convertible(HostOf(es))
  {
    DecodesExtensions(buf, at, at + |EncodeExtensions(es)|, es);
    HostAtExtensionSpan(buf, at, es);
  }

  lemma PreambleLength(h: Hello)
    requires Encodable(h)
    ensures |EncodePreamble(h)| == 38 + |h.sessionId| + |h.cipherSuites| + |h.compression|
  {
  }

  lemma DecodesPreamble(h: Hello, buf: Bytes)
    requires Encodable(h) && At(buf, 9, EncodePreamble(h))
    ensures |buf| >= 44 && buf[43] as int == |h.sessionId|
    ensures |buf| >= 46 + |h.sessionId| && ReadU16(buf, 44 + |h.sessionId|) == |h.cipherSuites|
    ensures var m := 46 + |h.sessionId| + |h.cipherSuites|;
            |buf| > m && buf[m] as int == |h.compression|
  {
    var fixed := h.version + h.random;
    var session := fixed + [|h.sessionId| as byte] + h.sessionId;
    var ciphers := session + U16(|h.cipherSuites|) + h.cipherSuites;
    ReadsVector8(buf, 9, ciphers, h.compression);
    ReadsVector16(buf, 9, session, h.cipherSuites);
    ReadsVector8(buf, 9, fixed, h.sessionId);
  }

  lemma ReadsVector8(buf: Bytes, pos: nat, pre: Bytes, v: Bytes)
    requires |v| < 256 && At(buf, pos, pre + [|v| as byte] + v)
    ensures pos + |pre| < |buf| && buf[pos + |pre|] as int == |v|
    ensures At(buf, pos, pre)
  {
    AtSplit(buf, pos, pre + [|v| as byte], v);
    AtSplit(buf, pos, pre, [|v| as byte]);
    AtByte(buf, pos + |pre|, |v| as byte);
  }

  lemma ReadsVector16(buf: Bytes, pos: nat, pre: Bytes, v: Bytes)
    requires |v| < 0x1_0000 && At(buf, pos, pre + U16(|v|) + v)
    ensures pos + |pre| + 2 <= |buf| && ReadU16(buf, pos + |pre|) == |v|
    ensures At(buf, pos, pre)
  {
    AtSplit(buf, pos, pre + U16(|v|), v);
    AtSplit(buf, pos, pre, U16(|v|));
    AtU16(buf, pos + |pre|, |v|);
  }

  lemma DecodesMessage(h: Hello, buf: Bytes, pre: Bytes, es: Bytes)
    requires Encodable(h) && pre == EncodePreamble(h) && es == EncodeExtensions(h.extensions)
    requires |buf| >= 9 && buf[0] == 0x16 && buf[5] == 0x01 && At(buf, 9, pre + U16(|es|) + es)
    ensures FindExtensions(buf) == Some(Block(11 + |pre|, 11 + |pre| + |es|))
    ensures At(buf, 11 + |pre|, es)
  {
    AtSplit(buf, 9, pre + U16(|es|), es);
    AtSplit(buf, 9, pre, U16(|es|));
    AtU16(buf, 9 + |pre|, |es|);
    DecodesPreamble(h, buf);
    PreambleLength(h);
    FrameFromFields(buf, |h.sessionId|, |h.cipherSuites|, |h.compression|, |es|);
  }

  lemma DecodesBuffer(h: Hello, buf: Bytes, pre: Bytes, es: Bytes)
    requires Encodable(h) && pre == EncodePreamble(h) && es == EncodeExtensions(h.extensions)
    requires |buf| >= 9 && buf[0] == 0x16 && buf[5] == 0x01 && At(buf, 9, pre + U16(|es|) + es)
    ensures ServerNameOf(buf) == Convertible(HostOf(h.extensions))
    ensures Locate(buf) == HostSpan(h)
  {
    DecodesMessage(h, buf, pre, es);
    DecodesBlock(buf, 11 + |pre|, h.extensions);
  }

  /** On every buffer that starts with a well-formed ClientHello, whatever its session id,
      cipher suites, compression methods and extensions and whatever bytes follow it, the
      parser returns the first host_name of the first server_name extension if that name is
      UTF-8, else None. */
  lemma DecodesEveryHello(h: Hello, buf: Bytes)
    requires Encodable(h) && EncodeRecord(h) <= buf
    ensures ServerNameOf(buf) == Convertible(HostOf(h.extensions))
    ensures Locate(buf) == HostSpan(h)
  {
    var pre, es := EncodePreamble(h), EncodeExtensions(h.extensions);
    ReadsHead(h, buf, pre, es);
    DecodesBuffer(h, buf, pre, es);
  }

  /** A peek of k bytes suffices exactly when it reaches the end of the host name; a shorter
      peek yields None, never a partial or different name. */
  lemma PeekSuffices(h: Hello, buf: Bytes, k: nat)
    requires Encodable(h) && EncodeRecord(h) <= buf && k <= |buf|
    ensures ServerNameOf(buf[..k]) ==
            if HostSpan(h).Some? && HostSpan(h).value.hi <= k then Convertible(HostOf(h.extensions)) else None
  {
    DecodesEveryHello(h, buf);
    TruncationLaw(buf, k);
  }
}
