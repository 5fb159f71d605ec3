/** The server name found in a TLS ClientHello (src/cluster/relayProtocol.ts) as laid out in
    section 4.1.2 of RFC 8446 and section 3 of RFC 6066. */
module ClientHello {
  import opened Versions

  type byte = x: int | 0 <= x < 256

  datatype Verdict = More | Invalid | Found(name: Option<seq<byte>>)

  const MAX_RECORD := 16384

  // ─── Names ───────────────────────────────────────────────────────────────────

  /** Decoding as ASCII drops the high bit; then letters become lower-case. */
  function Lower(b: byte): byte
  {
    var c := b % 128;
    if 65 <= c <= 90 then c + 32 else c
  }

  function LowerName(name: seq<byte>): (r: seq<byte>)
    ensures |r| == |name| && forall i | 0 <= i < |name| :: r[i] == Lower(name[i])
  {
    seq(|name|, i requires 0 <= i < |name| => Lower(name[i]))
  }

  /** The parts between the dots. */
  function Labels(name: seq<byte>): (labels: seq<seq<byte>>)
    ensures |labels| > 0
  {
    if name == [] then [[]]
    else
      var rest := Labels(name[1..]);
      if name[0] == 46 then [[]] + rest else [[name[0]] + rest[0]] + rest[1..]
  }

  /** The parts with dots between them. */
  function Dotted(labels: seq<seq<byte>>): seq<byte>
  {
    if labels == [] then [] else if |labels| == 1 then labels[0] else labels[0] + [46] + Dotted(labels[1..])
  }

  /** The labels are the dot-free parts that make up the name. */
  lemma {:induction false} LabelsAreTheParts(name: seq<byte>)
    ensures Dotted(Labels(name)) == name && forall i | 0 <= i < |Labels(name)| :: 46 !in Labels(name)[i]
  {
    if name != [] {
      var rest, labels := Labels(name[1..]), Labels(name);
      LabelsAreTheParts(name[1..]);
      if name[0] == 46 {
        assert labels[1..] == rest && labels[0] == [];
      } else {
        assert labels[1..] == rest[1..];
        if |rest| > 1 {
          assert ([name[0]] + rest[0]) + [46] + Dotted(rest[1..]) == [name[0]] + (rest[0] + [46] + Dotted(rest[1..]));
        }
        assert forall i | 1 <= i < |labels| :: labels[i] == rest[i];
      }
      assert name == [name[0]] + name[1..];
    }
  }

  predicate IsLabelByte(b: byte)
  {
    97 <= b <= 122 || 48 <= b <= 57 || b == 45
  }

  predicate IsLabel(part: seq<byte>)
  {
    && 1 <= |part| <= 63 && part[0] != 45 && part[|part| - 1] != 45
    && forall i | 0 <= i < |part| :: IsLabelByte(part[i])
  }

  /** A number from 0 to 255 without leading zeros. */
  predicate IsDecimalOctet(part: seq<byte>)
  {
    && 1 <= |part| <= 3 && (forall i | 0 <= i < |part| :: 48 <= part[i] <= 57) && (|part| > 1 ==> part[0] != 48)
    && (|part| == 3 ==> (part[0] as int - 48) * 100 + (part[1] as int - 48) * 10 + (part[2] as int - 48) <= 255)
  }

  predicate IsServerName(name: seq<byte>)
  {
    var labels := Labels(name);
    && 1 <= |name| <= 253 && (forall i | 0 <= i < |labels| :: IsLabel(labels[i]))
    && !(|labels| == 4 && forall i | 0 <= i < 4 :: IsDecimalOctet(labels[i]))
  }

  // ─── What a valid name looks like ────────────────────────────────────────────

  predicate IsEdge(b: byte) { 97 <= b <= 122 || 48 <= b <= 57 }

  /** A dot stands between a letter or digit before and one after it. */
  predicate DotFits(name: seq<byte>, i: int)
    requires 0 <= i < |name|
  {
    name[i] == 46 ==> 0 < i < |name| - 1 && IsEdge(name[i - 1]) && IsEdge(name[i + 1])
  }

  /** There is a dot within 64 bytes. */
  predicate DotWithin(name: seq<byte>, i: int)
    requires 0 <= i && i + 64 <= |name|
  {
    exists k | i <= k < i + 64 :: name[k] == 46
  }

  /** Letters, digits, hyphens and dots; letters or digits at both ends and around every dot; and never
      64 bytes without a dot. */
  predicate IsClean(name: seq<byte>)
  {
    && name != [] && IsEdge(name[0]) && IsEdge(name[|name| - 1])
    && (forall i | 0 <= i < |name| :: (IsEdge(name[i]) || name[i] == 45 || name[i] == 46) && DotFits(name, i))
    && forall i | 0 <= i <= |name| - 64 :: DotWithin(name, i)
  }

  predicate AreLabels(labels: seq<seq<byte>>)
  {
    forall i | 0 <= i < |labels| :: IsLabel(labels[i])
  }

  lemma FirstDot(name: seq<byte>)
    requires IsClean(name)
    ensures |name| >= 64 ==> exists k | 0 <= k < 64 :: name[k] == 46
  {
    if |name| >= 64 { assert DotWithin(name, 0); }
  }

  lemma OneLabelIsClean(part: seq<byte>)
    requires 46 !in part
    ensures IsLabel(part) <==> IsClean(part)
  {
    if IsClean(part) { FirstDot(part); }
  }

  /** A first label and a clean rest behind its dot. */
  lemma FirstLabelIsClean(first: seq<byte>, rest: seq<byte>)
    requires 46 !in first
    ensures IsLabel(first) && IsClean(rest) <==> IsClean(first + [46] + rest)
  {
    var name := first + [46] + rest;
    assert name[|first|] == 46 && (forall i | 0 <= i < |first| :: name[i] == first[i]) && forall i | 0 <= i < |rest| :: name[|first| + 1 + i] == rest[i];
    if IsLabel(first) && IsClean(rest) { JoinedIsClean(first, rest, name); }
    if IsClean(name) { CleanIsParted(first, rest, name); }
  }

  lemma JoinedIsClean(first: seq<byte>, rest: seq<byte>, name: seq<byte>)
    requires IsLabel(first) && IsClean(rest) && name == first + [46] + rest && name[|first|] == 46
    requires (forall i | 0 <= i < |first| :: name[i] == first[i]) && forall i | 0 <= i < |rest| :: name[|first| + 1 + i] == rest[i]
    ensures IsClean(name)
  {
    forall i | 0 <= i < |name| ensures (IsEdge(name[i]) || name[i] == 45 || name[i] == 46) && DotFits(name, i) {
      if i > |first| {
        assert name[i] == rest[i - |first| - 1] && DotFits(rest, i - |first| - 1);
        if i > |first| + 1 { assert name[i - 1] == rest[i - |first| - 2]; }
        if i < |name| - 1 { assert name[i + 1] == rest[i - |first|]; }
      }
    }
    forall i | 0 <= i <= |name| - 64 ensures DotWithin(name, i) {
      if i > |first| {
        assert DotWithin(rest, i - |first| - 1);
        var k :| i - |first| - 1 <= k < i - |first| - 1 + 64 && rest[k] == 46;
        assert name[|first| + 1 + k] == 46;
      } else {
        assert name[|first|] == 46;
      }
    }
  }

  lemma CleanIsParted(first: seq<byte>, rest: seq<byte>, name: seq<byte>)
    requires 46 !in first && IsClean(name) && name == first + [46] + rest && name[|first|] == 46
    requires (forall i | 0 <= i < |first| :: name[i] == first[i]) && forall i | 0 <= i < |rest| :: name[|first| + 1 + i] == rest[i]
    ensures IsLabel(first) && IsClean(rest)
  {
    assert DotFits(name, |first|);
    FirstDot(name);
    forall i | 0 <= i < |first| ensures IsLabelByte(first[i]) { assert name[i] == first[i]; }
    forall i | 0 <= i < |rest| ensures (IsEdge(rest[i]) || rest[i] == 45 || rest[i] == 46) && DotFits(rest, i) {
      assert DotFits(name, |first| + 1 + i) && name[|first| + 1 + i] == rest[i];
      if i > 0 { assert name[|first| + i] == rest[i - 1]; }
      if i < |rest| - 1 { assert name[|first| + 2 + i] == rest[i + 1]; }
    }
    forall i | 0 <= i <= |rest| - 64 ensures DotWithin(rest, i) {
      assert DotWithin(name, |first| + 1 + i);
      var k :| |first| + 1 + i <= k < |first| + 1 + i + 64 && name[k] == 46;
      assert rest[k - |first| - 1] == 46;
    }
  }

  lemma {:induction false} LabelsAreClean(labels: seq<seq<byte>>)
    requires labels != [] && forall i | 0 <= i < |labels| :: 46 !in labels[i]
    ensures AreLabels(labels) <==> IsClean(Dotted(labels))
  {
    if |labels| == 1 {
      OneLabelIsClean(labels[0]);
    } else {
      LabelsAreClean(labels[1..]);
      FirstLabelIsClean(labels[0], Dotted(labels[1..]));
      assert AreLabels(labels) <==> IsLabel(labels[0]) && AreLabels(labels[1..]) by {
        assert forall i | 1 <= i < |labels| :: labels[i] == labels[1..][i - 1];
      }
    }
  }

  /** A name is taken exactly if it has at most 253 bytes, is clean, and is not four numbers below 256. */
  lemma ServerNameMeans(name: seq<byte>)
    ensures IsServerName(name) <==>
            |name| <= 253 && IsClean(name) && !(|Labels(name)| == 4 && forall i | 0 <= i < 4 :: IsDecimalOctet(Labels(name)[i]))
  {
    LabelsAreTheParts(name);
    LabelsAreClean(Labels(name));
  }

  // ─── Reading ─────────────────────────────────────────────────────────────────

  function U16(d: seq<byte>, i: nat): (n: nat)
    requires i + 2 <= |d|
    ensures n < 65536
  {
    d[i] as int * 256 + d[i + 1] as int
  }

  function U24(d: seq<byte>, i: nat): nat
    requires i + 3 <= |d|
  {
    d[i] as int * 65536 + d[i + 1] as int * 256 + d[i + 2] as int
  }

  /** Past a vector with a length of one or two bytes in front. */
  function SkipVector(hello: seq<byte>, at: nat, lengthBytes: nat): (next: Option<nat>)
    requires lengthBytes == 1 || lengthBytes == 2
    ensures next.Some? ==> at < next.value <= |hello|
  {
    if at + lengthBytes > |hello| then None
    else
      var length := if lengthBytes == 1 then hello[at] else U16(hello, at);
      if at + lengthBytes + length <= |hello| then Some(at + lengthBytes + length) else None
  }

  function AfterVectors(hello: seq<byte>): (at: Option<nat>)
    ensures at.Some? ==> at.value <= |hello|
  {
    var session := SkipVector(hello, 34, 1);
    if session.None? then None
    else
      var suites := SkipVector(hello, session.value, 2);
      if suites.None? then None else SkipVector(hello, suites.value, 1)
  }

  /** Where the walk through a hello ends: without a host name, in a length that does not fit, or
      at the bytes of the first host name. */
  datatype Located = NoName | Broken | Name(bytes: seq<byte>)

  function Judge(l: Located): Verdict
  {
    match l
    case NoName => Found(None)
    case Broken => Invalid
    case Name(bytes) => if IsServerName(LowerName(bytes)) then Found(Some(LowerName(bytes))) else Invalid
  }

  /** The entries of a server name list. */
  function InNameList(hello: seq<byte>, entry: nat, listEnd: nat): Located
    requires listEnd <= |hello|
    decreases listEnd - entry
  {
    if entry + 3 > listEnd then NoName
    else
      var nameLength := U16(hello, entry + 1);
      if entry + 3 + nameLength > listEnd then Broken
      else if hello[entry] == 0 then Name(hello[entry + 3..entry + 3 + nameLength])
      else InNameList(hello, entry + 3 + nameLength, listEnd)
  }

  /** The body of a server name extension. */
  function InExtension(hello: seq<byte>, start: nat, length: nat): Located
    requires start + length <= |hello|
  {
    if length < 2 then Broken
    else
      var listEnd := start + 2 + U16(hello, start);
      if listEnd > start + length then NoName else InNameList(hello, start + 2, listEnd)
  }

  function InExtensions(hello: seq<byte>, at: nat, end: nat): Located
    requires end <= |hello|
    decreases end - at
  {
    if at + 4 > end then NoName
    else
      var length := U16(hello, at + 2);
      if at + 4 + length > end then Broken
      else if U16(hello, at) == 0 then InExtension(hello, at + 4, length)
      else InExtensions(hello, at + 4 + length, end)
  }

  function InHello(hello: seq<byte>): Located
  {
    var vectors := AfterVectors(hello);
    if vectors.None? then Broken
    else
      var at := vectors.value;
      if at == |hello| then NoName
      else if at + 2 > |hello| then Broken
      else
        var end := at + 2 + U16(hello, at);
        if end > |hello| then Broken else InExtensions(hello, at + 2, end)
  }

  function ServerName(data: seq<byte>): Verdict
  {
    if |data| < 5 then More
    else if data[0] != 0x16 || data[1] != 0x03 then Invalid
    else
      var recordLength := U16(data, 3);
      if recordLength < 4 || recordLength > MAX_RECORD then Invalid
      else if |data| < 5 + recordLength then More
      else
        var record := data[5..5 + recordLength];
        if record[0] != 0x01 then Invalid
        else
          var helloLength := U24(record, 1);
          if 4 + helloLength > |record| then Invalid else Judge(InHello(record[4..4 + helloLength]))
  }

  /** What the first bytes decide by themselves, and what a name found is. */
  lemma HeaderDecides(data: seq<byte>)
    ensures ServerName(data) == More <==>
            || |data| < 5
            || (data[0] == 22 && data[1] == 3 && 4 <= U16(data, 3) <= 16384 && |data| < 5 + U16(data, 3))
    ensures |data| >= 5 && (data[0] != 22 || data[1] != 3 || U16(data, 3) < 4 || U16(data, 3) > 16384) ==> ServerName(data) == Invalid
    ensures ServerName(data) != More && ServerName(data) != Invalid ==> data[5] == 1 && 4 + U24(data, 6) <= U16(data, 3)
    ensures ServerName(data).Found? && ServerName(data).name.Some? ==> IsServerName(ServerName(data).name.value)
  {
    if |data| >= 5 && 5 + U16(data, 3) <= |data| && U16(data, 3) >= 4 {
      var record := data[5..5 + U16(data, 3)];
      assert record[0] == data[5] && U24(record, 1) == U24(data, 6);
    }
  }

  method ReadServerName(data: seq<byte>) returns (v: Verdict)
    ensures v == ServerName(data)
  {
    if |data| < 5 { return More; }
    if data[0] != 0x16 || data[1] != 0x03 { return Invalid; }
    var recordLength := U16(data, 3);
    if recordLength < 4 || recordLength > MAX_RECORD { return Invalid; }
    if |data| < 5 + recordLength { return More; }
    var record := data[5..5 + recordLength];
    if record[0] != 0x01 { return Invalid; }
    var helloLength := U24(record, 1);
    // The whole hello has to be in this one record.
    if 4 + helloLength > |record| { return Invalid; }
    var hello := record[4..4 + helloLength];
    var session := SkipVector(hello, 34, 1);
    if session.None? { return Invalid; }
    var suites := SkipVector(hello, session.value, 2);
    if suites.None? { return Invalid; }
    var compression := SkipVector(hello, suites.value, 1);
    if compression.None? { return Invalid; }
    var at := compression.value;
    if at == |hello| { return Found(None); }
    if at + 2 > |hello| { return Invalid; }
    var extensionsEnd := at + 2 + U16(hello, at);
    if extensionsEnd > |hello| { return Invalid; }
    at := at + 2;
    v := ReadExtensions(hello, at, extensionsEnd);
  }

  method ReadExtensions(hello: seq<byte>, from: nat, extensionsEnd: nat) returns (v: Verdict)
    requires extensionsEnd <= |hello|
    ensures v == Judge(InExtensions(hello, from, extensionsEnd))
  {
    var at := from;
    while at + 4 <= extensionsEnd
      invariant InExtensions(hello, at, extensionsEnd) == InExtensions(hello, from, extensionsEnd)
    {
      var kind := U16(hello, at);
      var length := U16(hello, at + 2);
      var start := at + 4;
      if start + length > extensionsEnd { return Invalid; }
      if kind == 0 {
        v := ReadNameList(hello, start, length);
        return;
      }
      at := start + length;
    }
    return Found(None);
  }

  method ReadNameList(hello: seq<byte>, start: nat, length: nat) returns (v: Verdict)
    requires start + length <= |hello|
    ensures v == Judge(InExtension(hello, start, length))
  {
    if length < 2 { return Invalid; }
    var listEnd := start + 2 + U16(hello, start);
    var entry := start + 2;
    while entry + 3 <= listEnd && listEnd <= start + length
      invariant listEnd <= start + length ==> InNameList(hello, entry, listEnd) == InNameList(hello, start + 2, listEnd)
    {
      var nameLength := U16(hello, entry + 1);
      if entry + 3 + nameLength > listEnd { return Invalid; }
      if hello[entry] == 0 {
        return Judge(Name(hello[entry + 3..entry + 3 + nameLength]));
      }
      entry := entry + 3 + nameLength;
    }
    return Found(None);
  }

  /** What becomes of lengths that do not fit: a name or an extension that reaches beyond its list is an
      error, and so is a server name extension without room for a length; a list said to be longer than
      its extension holds no name, and neither does what is left when no further entry fits. */
  lemma LengthsThatDoNotFit(hello: seq<byte>, at: nat, end: nat)
    requires at <= end <= |hello|
    ensures at + 4 > end ==> InExtensions(hello, at, end) == NoName
    ensures at + 4 <= end < at + 4 + U16(hello, at + 2) ==> InExtensions(hello, at, end) == Broken
    ensures end - at < 2 ==> InExtension(hello, at, end - at) == Broken
    ensures end - at >= 2 && at + 2 + U16(hello, at) > end ==> InExtension(hello, at, end - at) == NoName
    ensures at + 3 > end ==> InNameList(hello, at, end) == NoName
    ensures at + 3 <= end < at + 3 + U16(hello, at + 1) ==> InNameList(hello, at, end) == Broken
  {
  }

  // ─── More bytes ──────────────────────────────────────────────────────────────

  /** Once there is a verdict, further bytes do not change it. */
  lemma VerdictIsFinal(data: seq<byte>, more: seq<byte>)
    requires ServerName(data) != More
    ensures ServerName(data + more) == ServerName(data)
  {
    if |data| >= 5 && 5 + U16(data, 3) <= |data| {
      var end := 5 + U16(data, 3);
      assert (data + more)[5..end] == data[5..end];
    }
  }

  // ─── A printer ───────────────────────────────────────────────────────────────

  datatype NameEntry = NameEntry(kind: byte, name: seq<byte>)

  datatype Extension = Names(entries: seq<NameEntry>) | Other(kind: nat, body: seq<byte>)

  /** `extensions` is absent in hellos older than TLS 1.2 may send. */
  datatype Hello = Hello(version: seq<byte>, random: seq<byte>, session: seq<byte>, suites: seq<byte>, compression: seq<byte>,
                         extensions: Option<seq<Extension>>)

  function Print16(n: nat): (r: seq<byte>)
    requires n < 65536
    ensures |r| == 2 && U16(r, 0) == n
  {
    [n / 256, n % 256]
  }

  predicate EntriesFit(entries: seq<NameEntry>)
  {
    forall i | 0 <= i < |entries| :: |entries[i].name| < 65536
  }

  function PrintEntries(entries: seq<NameEntry>): seq<byte>
    requires EntriesFit(entries)
  {
    if entries == [] then []
    else [entries[0].kind] + Print16(|entries[0].name|) + entries[0].name + PrintEntries(entries[1..])
  }

  predicate ExtensionFits(e: Extension)
  {
    match e
    case Names(entries) => EntriesFit(entries) && |PrintEntries(entries)| + 2 < 65536
    case Other(kind, body) => 0 < kind < 65536 && |body| < 65536
  }

  function PrintBody(e: Extension): (r: seq<byte>)
    requires ExtensionFits(e)
    ensures |r| < 65536
  {
    match e
    case Names(entries) => Print16(|PrintEntries(entries)|) + PrintEntries(entries)
    case Other(_, body) => body
  }

  function PrintExtension(e: Extension): seq<byte>
    requires ExtensionFits(e)
  {
    Print16(if e.Names? then 0 else e.kind) + Print16(|PrintBody(e)|) + PrintBody(e)
  }

  predicate ExtensionsFit(extensions: seq<Extension>)
  {
    forall i | 0 <= i < |extensions| :: ExtensionFits(extensions[i])
  }

  function PrintExtensions(extensions: seq<Extension>): seq<byte>
    requires ExtensionsFit(extensions)
  {
    if extensions == [] then [] else PrintExtension(extensions[0]) + PrintExtensions(extensions[1..])
  }

  predicate HelloFits(h: Hello)
  {
    && |h.version| == 2 && |h.random| == 32 && |h.session| < 256 && |h.suites| < 65536 && |h.compression| < 256
    && (h.extensions.Some? ==> ExtensionsFit(h.extensions.value) && |PrintExtensions(h.extensions.value)| < 65536)
    && |PrintHello(h)| + 4 <= MAX_RECORD
  }

  /** A vector with its length of one or two bytes in front. */
  function Vector(body: seq<byte>, lengthBytes: nat): (r: seq<byte>)
    requires (lengthBytes == 1 && |body| < 256) || (lengthBytes == 2 && |body| < 65536)
    ensures |r| == lengthBytes + |body|
  {
    if lengthBytes == 1 then [|body|] + body else Print16(|body|) + body
  }

  function PrintFixed(h: Hello): seq<byte>
    requires |h.session| < 256 && |h.suites| < 65536 && |h.compression| < 256
  {
    h.version + h.random + (Vector(h.session, 1) + (Vector(h.suites, 2) + Vector(h.compression, 1)))
  }

  function PrintHello(h: Hello): seq<byte>
    requires |h.session| < 256 && |h.suites| < 65536 && |h.compression| < 256
    requires h.extensions.Some? ==> ExtensionsFit(h.extensions.value) && |PrintExtensions(h.extensions.value)| < 65536
  {
    PrintFixed(h) +
    if h.extensions.None? then []
    else Print16(|PrintExtensions(h.extensions.value)|) + PrintExtensions(h.extensions.value)
  }

  /** One record that holds the whole handshake message. */
  function Print(h: Hello, minor: byte): seq<byte>
    requires HelloFits(h)
  {
    var hello := PrintHello(h);
    [0x16, 0x03, minor] + Print16(4 + |hello|) + [0x01, 0, |hello| / 256, |hello| % 256] + hello
  }

  /** The first host name of the first server name extension. */
  function NameIn(entries: seq<NameEntry>): Located
  {
    if entries == [] then NoName
    else if entries[0].kind == 0 then Name(entries[0].name)
    else NameIn(entries[1..])
  }

  function NameOf(extensions: seq<Extension>): Located
  {
    if extensions == [] then NoName
    else if extensions[0].Names? then NameIn(extensions[0].entries)
    else NameOf(extensions[1..])
  }

  function NameOfHello(h: Hello): Located
  {
    if h.extensions.None? then NoName else NameOf(h.extensions.value)
  }

  // ─── Round trip ──────────────────────────────────────────────────────────────

  predicate At(d: seq<byte>, at: nat, part: seq<byte>)
  {
    at + |part| <= |d| && forall i {:trigger part[i]} | 0 <= i < |part| :: d[at + i] == part[i]
  }

  lemma AtSplit(d: seq<byte>, at: nat, a: seq<byte>, b: seq<byte>)
    requires At(d, at, a + b)
    ensures At(d, at, a) && At(d, at + |a|, b)
  {
    forall i | 0 <= i < |a| ensures d[at + i] == a[i] {
      assert (a + b)[i] == a[i];
    }
    forall i | 0 <= i < |b| ensures d[at + |a| + i] == b[i] {
      assert (a + b)[|a| + i] == b[i];
    }
  }

  lemma At16(d: seq<byte>, at: nat, n: nat)
    requires n < 65536 && At(d, at, Print16(n))
    ensures U16(d, at) == n
  {
    assert Print16(n)[0] == d[at] && Print16(n)[1] == d[at + 1];
  }

  lemma AtByte(d: seq<byte>, at: nat, b: byte)
    requires At(d, at, [b])
    ensures d[at] == b
  {
    assert [b][0] == b;
  }

  lemma AtSlice(d: seq<byte>, at: nat, part: seq<byte>)
    requires At(d, at, part)
    ensures d[at..at + |part|] == part
  {
  }

  lemma Regroup(a: seq<byte>, b: seq<byte>, c: seq<byte>, d: seq<byte>)
    ensures a + b + c + d == a + (b + (c + d))
  {
  }

  lemma EntryAt(d: seq<byte>, at: nat, e: NameEntry, rest: seq<byte>)
    requires |e.name| < 65536 && At(d, at, [e.kind] + (Print16(|e.name|) + (e.name + rest)))
    ensures var n := |e.name|;
            && at + 3 + n <= |d| && d[at] == e.kind && U16(d, at + 1) == n && d[at + 3..at + 3 + n] == e.name
            && At(d, at + 3 + n, rest)
  {
    var length := Print16(|e.name|);
    AtSplit(d, at, [e.kind], length + (e.name + rest));
    AtSplit(d, at + 1, length, e.name + rest);
    AtSplit(d, at + 3, e.name, rest);
    AtByte(d, at, e.kind);
    At16(d, at + 1, |e.name|);
    AtSlice(d, at + 3, e.name);
  }

  lemma FirstEntryAt(d: seq<byte>, at: nat, entries: seq<NameEntry>)
    requires EntriesFit(entries) && entries != [] && At(d, at, PrintEntries(entries))
    ensures EntriesFit(entries[1..])
    ensures var e := entries[0]; var n := |e.name|;
            && at + 3 + n <= |d| && d[at] == e.kind && U16(d, at + 1) == n && d[at + 3..at + 3 + n] == e.name
            && At(d, at + 3 + n, PrintEntries(entries[1..]))
            && |PrintEntries(entries)| == 3 + n + |PrintEntries(entries[1..])|
  {
    var e, rest := entries[0], PrintEntries(entries[1..]);
    Regroup([e.kind], Print16(|e.name|), e.name, rest);
    EntryAt(d, at, e, rest);
  }

  lemma {:induction false} EntriesRead(d: seq<byte>, at: nat, entries: seq<NameEntry>)
    requires EntriesFit(entries) && At(d, at, PrintEntries(entries))
    ensures InNameList(d, at, at + |PrintEntries(entries)|) == NameIn(entries)
    decreases |entries|
  {
    if entries != [] {
      FirstEntryAt(d, at, entries);
      if entries[0].kind != 0 {
        EntriesRead(d, at + 3 + |entries[0].name|, entries[1..]);
      }
    }
  }

  lemma ExtensionAt(d: seq<byte>, at: nat, e: Extension)
    requires ExtensionFits(e) && At(d, at, PrintExtension(e))
    ensures |PrintExtension(e)| == 4 + |PrintBody(e)|
    ensures U16(d, at) == (if e.Names? then 0 else e.kind) && U16(d, at + 2) == |PrintBody(e)|
    ensures At(d, at + 4, PrintBody(e))
  {
    var kind, length := Print16(if e.Names? then 0 else e.kind), Print16(|PrintBody(e)|);
    assert PrintExtension(e) == kind + (length + PrintBody(e));
    AtSplit(d, at, kind, length + PrintBody(e));
    AtSplit(d, at + 2, length, PrintBody(e));
    At16(d, at, if e.Names? then 0 else e.kind);
    At16(d, at + 2, |PrintBody(e)|);
  }

  lemma NamesRead(d: seq<byte>, at: nat, entries: seq<NameEntry>)
    requires ExtensionFits(Names(entries)) && At(d, at, PrintBody(Names(entries)))
    ensures InExtension(d, at, |PrintBody(Names(entries))|) == NameIn(entries)
  {
    var list := PrintEntries(entries);
    AtSplit(d, at, Print16(|list|), list);
    At16(d, at, |list|);
    EntriesRead(d, at + 2, entries);
  }

  lemma OneExtensionRead(d: seq<byte>, at: nat, end: nat, e: Extension)
    requires ExtensionFits(e) && At(d, at, PrintExtension(e)) && at + |PrintExtension(e)| <= end <= |d|
    ensures InExtensions(d, at, end) == if e.Names? then NameIn(e.entries) else InExtensions(d, at + |PrintExtension(e)|, end)
  {
    ExtensionAt(d, at, e);
    if e.Names? { NamesRead(d, at + 4, e.entries); }
  }

  lemma FirstPrinted(extensions: seq<Extension>)
    requires ExtensionsFit(extensions) && extensions != []
    ensures ExtensionFits(extensions[0]) && ExtensionsFit(extensions[1..])
    ensures PrintExtensions(extensions) == PrintExtension(extensions[0]) + PrintExtensions(extensions[1..])
  {
  }

  lemma FirstExtensionAt(d: seq<byte>, at: nat, extensions: seq<Extension>)
    requires ExtensionsFit(extensions) && extensions != [] && At(d, at, PrintExtensions(extensions))
    ensures ExtensionFits(extensions[0]) && ExtensionsFit(extensions[1..])
    ensures At(d, at, PrintExtension(extensions[0]))
    ensures At(d, at + |PrintExtension(extensions[0])|, PrintExtensions(extensions[1..]))
    ensures |PrintExtensions(extensions)| == |PrintExtension(extensions[0])| + |PrintExtensions(extensions[1..])|
  {
    FirstPrinted(extensions);
    AtSplit(d, at, PrintExtension(extensions[0]), PrintExtensions(extensions[1..]));
  }

  lemma {:induction false} ExtensionsRead(d: seq<byte>, at: nat, extensions: seq<Extension>)
    requires ExtensionsFit(extensions) && At(d, at, PrintExtensions(extensions))
    ensures InExtensions(d, at, at + |PrintExtensions(extensions)|) == NameOf(extensions)
    decreases |extensions|
  {
    if extensions != [] {
      FirstExtensionAt(d, at, extensions);
      OneExtensionRead(d, at, at + |PrintExtensions(extensions)|, extensions[0]);
      if extensions[0].Other? {
        ExtensionsRead(d, at + |PrintExtension(extensions[0])|, extensions[1..]);
      }
    }
  }

  lemma VectorRead(d: seq<byte>, at: nat, body: seq<byte>, lengthBytes: nat)
    requires (lengthBytes == 1 && |body| < 256) || (lengthBytes == 2 && |body| < 65536)
    requires At(d, at, Vector(body, lengthBytes))
    ensures SkipVector(d, at, lengthBytes) == Some(at + |Vector(body, lengthBytes)|)
  {
    if lengthBytes == 1 {
      AtSplit(d, at, [|body|], body);
      AtByte(d, at, |body|);
    } else {
      AtSplit(d, at, Print16(|body|), body);
      At16(d, at, |body|);
    }
  }

  lemma FixedPartRead(h: Hello, hello: seq<byte>)
    requires |h.version| == 2 && |h.random| == 32 && |h.session| < 256 && |h.suites| < 65536 && |h.compression| < 256
    requires At(hello, 0, PrintFixed(h))
    ensures AfterVectors(hello) == Some(|PrintFixed(h)|)
  {
    var a, b, c := Vector(h.session, 1), Vector(h.suites, 2), Vector(h.compression, 1);
    AtSplit(hello, 0, h.version + h.random, a + (b + c));
    AtSplit(hello, 34, a, b + c);
    AtSplit(hello, 34 + |a|, b, c);
    VectorRead(hello, 34, h.session, 1);
    VectorRead(hello, 34 + |a|, h.suites, 2);
    VectorRead(hello, 34 + |a| + |b|, h.compression, 1);
  }

  ghost predicate ExtensionsStand(hello: seq<byte>, at: nat, extensions: seq<byte>)
  {
    && AfterVectors(hello) == Some(at) && |hello| == at + 2 + |extensions|
    && U16(hello, at) == |extensions| && At(hello, at + 2, extensions)
  }

  lemma HelloParts(h: Hello)
    requires HelloFits(h) && h.extensions.Some?
    ensures ExtensionsStand(PrintHello(h), |PrintFixed(h)|, PrintExtensions(h.extensions.value))
  {
    var extensions := PrintExtensions(h.extensions.value);
    ExtensionsAt(PrintHello(h), PrintFixed(h), extensions);
    FixedPartRead(h, PrintHello(h));
  }

  lemma RestRead(hello: seq<byte>, at: nat, extensions: seq<Extension>)
    requires ExtensionsFit(extensions) && ExtensionsStand(hello, at, PrintExtensions(extensions))
    ensures InHello(hello) == NameOf(extensions)
  {
    ExtensionsRead(hello, at + 2, extensions);
    BehindTheVectors(hello, at, |PrintExtensions(extensions)|);
  }

  lemma HelloRead(h: Hello)
    requires HelloFits(h)
    ensures InHello(PrintHello(h)) == NameOfHello(h)
  {
    if h.extensions.None? {
      assert PrintHello(h) == PrintFixed(h);
      AtWhole(PrintHello(h));
      FixedPartRead(h, PrintHello(h));
    } else {
      HelloParts(h);
      RestRead(PrintHello(h), |PrintFixed(h)|, h.extensions.value);
    }
  }

  lemma BehindTheVectors(hello: seq<byte>, at: nat, length: nat)
    requires AfterVectors(hello) == Some(at) && at + 2 + length == |hello| && U16(hello, at) == length
    ensures InHello(hello) == InExtensions(hello, at + 2, at + 2 + length)
  {
  }

  lemma ExtensionsAt(hello: seq<byte>, fixed: seq<byte>, extensions: seq<byte>)
    requires |extensions| < 65536 && hello == fixed + (Print16(|extensions|) + extensions)
    ensures At(hello, 0, fixed) && |hello| == |fixed| + 2 + |extensions|
    ensures U16(hello, |fixed|) == |extensions| && At(hello, |fixed| + 2, extensions)
  {
    AtWhole(hello);
    AtSplit(hello, 0, fixed, Print16(|extensions|) + extensions);
    AtSplit(hello, |fixed|, Print16(|extensions|), extensions);
    At16(hello, |fixed|, |extensions|);
  }

  lemma AtWhole(d: seq<byte>)
    ensures At(d, 0, d)
  {
    assert d[0..|d|] == d;
  }

  /** What the record layer of a printed message says. */
  lemma RecordRead(hello: seq<byte>, minor: byte, printed: seq<byte>)
    requires |hello| + 4 <= MAX_RECORD
    requires printed == [0x16, 0x03, minor] + Print16(4 + |hello|) + [0x01, 0, |hello| / 256, |hello| % 256] + hello
    ensures ServerName(printed) == Judge(InHello(hello))
  {
    var head := [0x16, 0x03, minor] + Print16(4 + |hello|);
    var record := [0x01, 0, |hello| / 256, |hello| % 256] + hello;
    assert printed == head + record;
    assert printed[3] == head[3] && printed[4] == head[4];
    assert U16(printed, 3) == U16(Print16(4 + |hello|), 0);
    assert printed[5..5 + |record|] == record;
    assert U24(record, 1) == |hello|;
    assert record[4..4 + |hello|] == hello;
  }

  /** Whatever else the hello carries, and whatever follows it, the name read is the one printed:
      none when there is no host name, refused when it is not a valid one. */
  lemma PrintedHelloIsRead(h: Hello, minor: byte, after: seq<byte>)
    requires HelloFits(h)
    ensures ServerName(Print(h, minor) + after) == Judge(NameOfHello(h))
  {
    var hello, printed := PrintHello(h), Print(h, minor);
    HelloRead(h);
    RecordRead(hello, minor, printed);
    JudgeIsFinal(InHello(hello));
    VerdictIsFinal(printed, after);
  }

  lemma JudgeIsFinal(l: Located)
    ensures Judge(l) != More
  {
  }

  /** Every proper beginning of a well-formed hello asks for more. */
  lemma BeginningsAskForMore(h: Hello, minor: byte, n: nat)
    requires HelloFits(h) && n < |Print(h, minor)|
    ensures ServerName(Print(h, minor)[..n]) == More
  {
    var hello, printed := PrintHello(h), Print(h, minor);
    if n >= 5 {
      assert printed[..n][3] == Print16(4 + |hello|)[0] && printed[..n][4] == Print16(4 + |hello|)[1];
      assert U16(printed[..n], 3) == 4 + |hello|;
    }
  }

  /** The first host name is found behind any other extensions and entries. */
  lemma {:induction false} FirstHostNameIsLocated(before: seq<Extension>, others: seq<NameEntry>, name: seq<byte>,
                                                  laterEntries: seq<NameEntry>, after: seq<Extension>)
    requires forall i | 0 <= i < |before| :: before[i].Other?
    requires forall i | 0 <= i < |others| :: others[i].kind != 0
    ensures NameOf(before + [Names(others + [NameEntry(0, name)] + laterEntries)] + after) == Name(name)
    decreases |before| + |others|
  {
    var entries := others + [NameEntry(0, name)] + laterEntries;
    var all := before + [Names(entries)] + after;
    if before != [] {
      assert all[1..] == before[1..] + [Names(entries)] + after;
      FirstHostNameIsLocated(before[1..], others, name, laterEntries, after);
    } else if others != [] {
      assert entries[1..] == others[1..] + [NameEntry(0, name)] + laterEntries;
      FirstHostNameIsLocated([], others[1..], name, laterEntries, after);
      assert ([] + [Names(entries[1..])] + after)[0] == Names(entries[1..]);
    }
  }

  /** A valid lower-case host name comes back exactly. */
  lemma HostNameComesBack(h: Hello, minor: byte, before: seq<Extension>, others: seq<NameEntry>, name: seq<byte>,
                          laterEntries: seq<NameEntry>, after: seq<Extension>, trailing: seq<byte>)
    requires forall i | 0 <= i < |before| :: before[i].Other?
    requires forall i | 0 <= i < |others| :: others[i].kind != 0
    requires IsServerName(name)
    requires HelloFits(h) && h.extensions == Some(before + [Names(others + [NameEntry(0, name)] + laterEntries)] + after)
    ensures ServerName(Print(h, minor) + trailing) == Found(Some(name))
  {
    PrintedHelloIsRead(h, minor, trailing);
    FirstHostNameIsLocated(before, others, name, laterEntries, after);
    ServerNamesAreLower(name);
    assert LowerName(name) == name;
  }

  lemma ServerNamesAreLower(name: seq<byte>)
    requires IsServerName(name)
    ensures forall i | 0 <= i < |name| :: Lower(name[i]) == name[i]
  {
    LabelBytes(name);
  }

  lemma {:induction false} LabelBytes(name: seq<byte>)
    requires forall i, j | 0 <= i < |Labels(name)| && 0 <= j < |Labels(name)[i]| :: IsLabelByte(Labels(name)[i][j])
    ensures forall i | 0 <= i < |name| :: IsLabelByte(name[i]) || name[i] == 46
  {
    if name != [] {
      var labels, rest := Labels(name), Labels(name[1..]);
      forall i, j | 0 <= i < |rest| && 0 <= j < |rest[i]| ensures IsLabelByte(rest[i][j]) {
        if name[0] == 46 {
          assert labels[i + 1] == rest[i];
        } else if i == 0 {
          assert labels[0][j + 1] == rest[0][j];
        } else {
          assert labels[i] == rest[i];
        }
      }
      LabelBytes(name[1..]);
      if name[0] != 46 { assert labels[0][0] == name[0]; }
      forall i | 0 <= i < |name| ensures IsLabelByte(name[i]) || name[i] == 46 {
        if i > 0 { assert name[i] == name[1..][i - 1]; }
      }
    }
  }
}
