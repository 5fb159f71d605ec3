/** The transcripts the handshakes prove possession over (src/cluster/crypto.ts). Fields are byte
    strings; a hash or a key derived from a transcript is determined by these bytes. */
module Transcripts {
  import opened Versions

  type byte = x: int | 0 <= x < 256

  type Field = seq<byte>

  const FIELD_LIMIT := 0x1_0000_0000

  predicate FieldsFit(fields: seq<Field>)
  {
    forall i | 0 <= i < |fields| :: |fields[i]| < FIELD_LIMIT
  }

  /** Big-endian, four bytes. */
  function Length32(n: nat): (r: seq<byte>)
    requires n < FIELD_LIMIT
    ensures |r| == 4
  {
    [n / 0x100_0000, n / 0x1_0000 % 256, n / 256 % 256, n % 256]
  }

  /** The four bytes write the number, the greatest first. */
  lemma LengthWrites(n: nat)
    requires n < FIELD_LIMIT
    ensures var r := Length32(n);
            (((r[0] as int) * 256 + r[1] as int) * 256 + r[2] as int) * 256 + r[3] as int == n
  {
    Halves(n);
    Halves(n / 256);
    Halves(n / 0x1_0000);
    DoubleDivision(n, 256);
    DoubleDivision(n, 0x1_0000);
  }

  lemma LengthIsUnique(m: nat, n: nat)
    requires m < FIELD_LIMIT && n < FIELD_LIMIT && Length32(m) == Length32(n)
    ensures m == n
  {
    assert Length32(m)[0] == Length32(n)[0] && Length32(m)[1] == Length32(n)[1];
    assert Length32(m)[2] == Length32(n)[2] && Length32(m)[3] == Length32(n)[3];
    assert m / 0x1_0000 == n / 0x1_0000 by { Halves(m / 0x1_0000); Halves(n / 0x1_0000); DoubleDivision(m, 0x1_0000); DoubleDivision(n, 0x1_0000); }
    assert m / 256 == n / 256 by { Halves(m / 256); Halves(n / 256); DoubleDivision(m, 256); DoubleDivision(n, 256); }
    Halves(m);
    Halves(n);
  }

  lemma Halves(n: nat)
    ensures n == n / 256 * 256 + n % 256
  {
  }

  lemma DoubleDivision(n: nat, d: nat)
    requires d == 256 || d == 0x1_0000
    ensures n / d / 256 == n / (d * 256)
  {
  }

  /** Every field with its length in front. */
  function Encoded(fields: seq<Field>): seq<byte>
    requires FieldsFit(fields)
  {
    if fields == [] then [] else Length32(|fields[0]|) + fields[0] + Encoded(fields[1..])
  }

  method EncodeFields(fields: seq<Field>) returns (bytes: seq<byte>)
    requires FieldsFit(fields)
    ensures bytes == Encoded(fields)
  {
    bytes := [];
    var i := 0;
    while i < |fields|
      invariant 0 <= i <= |fields| && bytes == Encoded(fields[..i])
    {
      EncodedJoins(fields[..i], [fields[i]]);
      assert fields[..i + 1] == fields[..i] + [fields[i]];
      assert Encoded([fields[i]]) == Length32(|fields[i]|) + fields[i] + [];
      bytes := bytes + (Length32(|fields[i]|) + fields[i]);
      i := i + 1;
    }
    assert fields[..i] == fields;
  }

  lemma EncodedCons(first: Field, rest: seq<Field>)
    requires |first| < FIELD_LIMIT && FieldsFit(rest)
    ensures FieldsFit([first] + rest) && Encoded([first] + rest) == Length32(|first|) + first + Encoded(rest)
  {
    assert ([first] + rest)[1..] == rest;
  }

  lemma Regroup(a: seq<byte>, b: seq<byte>, c: seq<byte>)
    ensures a + (b + c) == (a + b) + c
  {
  }

  lemma FirstApart(a: seq<Field>, b: seq<Field>)
    requires a != []
    ensures a == [a[0]] + a[1..] && a + b == [a[0]] + (a[1..] + b)
  {
  }

  lemma {:induction false} EncodedJoins(a: seq<Field>, b: seq<Field>)
    requires FieldsFit(a) && FieldsFit(b)
    ensures Encoded(a + b) == Encoded(a) + Encoded(b)
  {
    if a == [] {
      assert a + b == b;
    } else {
      EncodedJoins(a[1..], b);
      FirstApart(a, b);
      EncodedCons(a[0], a[1..] + b);
      Regroup(Length32(|a[0]|) + a[0], Encoded(a[1..]), Encoded(b));
    }
  }

  lemma SamePrefix(a: seq<byte>, b: seq<byte>, c: seq<byte>, d: seq<byte>)
    requires a + b == c + d && |a| == |c|
    ensures a == c && b == d
  {
    assert a == (a + b)[..|a|] && c == (c + d)[..|c|];
    assert b == (a + b)[|a|..] && d == (c + d)[|c|..];
  }

  lemma FirstFieldIsUnique(a: Field, b: Field, restA: seq<byte>, restB: seq<byte>)
    requires |a| < FIELD_LIMIT && |b| < FIELD_LIMIT
    requires Length32(|a|) + a + restA == Length32(|b|) + b + restB
    ensures a == b && restA == restB
  {
    assert Length32(|a|) + a + restA == Length32(|a|) + (a + restA);
    assert Length32(|b|) + b + restB == Length32(|b|) + (b + restB);
    SamePrefix(Length32(|a|), a + restA, Length32(|b|), b + restB);
    LengthIsUnique(|a|, |b|);
    SamePrefix(a, restA, b, restB);
  }

  /** Different lists of fields have different encodings. */
  lemma {:induction false} EncodingIsInjective(a: seq<Field>, b: seq<Field>)
    requires FieldsFit(a) && FieldsFit(b) && Encoded(a) == Encoded(b)
    ensures a == b
    decreases |a|
  {
    if a == [] || b == [] {
      assert |Encoded(a)| == 0 <==> a == [];
      assert |Encoded(b)| == 0 <==> b == [];
    } else {
      FirstFieldIsUnique(a[0], b[0], Encoded(a[1..]), Encoded(b[1..]));
      EncodingIsInjective(a[1..], b[1..]);
      assert a == [a[0]] + a[1..] && b == [b[0]] + b[1..];
    }
  }

  // ─── Handshakes ──────────────────────────────────────────────────────────────

  datatype Binding = Binding(client: Field, server: Field)

  datatype PairInit = PairInit(id: Field, name: Field, addr: Field, salt: Field, e: Field, n: Field, tls: Option<Binding>)

  datatype PairAccept = PairAccept(id: Field, name: Field, e: Field, n: Field)

  datatype SessionInit = SessionInit(id: Field, to: Field, e: Field, n: Field, tls: Option<Binding>)

  datatype SessionAccept = SessionAccept(sid: Field, e: Field, n: Field)

  function Text(s: string): (r: Field)
    ensures |r| == |s|
  {
    seq(|s|, i requires 0 <= i < |s| => s[i] as int % 256)
  }

  function BindingFields(tls: Option<Binding>): seq<Field>
  {
    if tls.Some? then [Text("tls"), tls.value.client, tls.value.server] else []
  }

  function Version(tls: Option<Binding>): Field
  {
    Text(if tls.Some? then "3" else "2")
  }

  function PairInitFields(i: PairInit): seq<Field>
  {
    [Text("pair-init"), Version(i.tls), i.id, i.name, i.addr, i.salt, i.e, i.n] + BindingFields(i.tls)
  }

  function PairAcceptFields(a: PairAccept): seq<Field>
  {
    [Text("pair-accept"), a.id, a.name, a.e, a.n]
  }

  function SessionInitFields(i: SessionInit): seq<Field>
  {
    [Text("session-init"), Version(i.tls), i.id, i.to, i.e, i.n] + BindingFields(i.tls)
  }

  function SessionAcceptFields(a: SessionAccept): seq<Field>
  {
    [Text("session-accept"), a.sid, a.e, a.n]
  }

  /** What is hashed: the two encodings one after the other, without anything in between. */
  function Transcript(init: seq<Field>, accept: seq<Field>): seq<byte>
    requires FieldsFit(init) && FieldsFit(accept)
  {
    Encoded(init) + Encoded(accept)
  }

  lemma TranscriptIsInjective(init: seq<Field>, accept: seq<Field>, init': seq<Field>, accept': seq<Field>)
    requires FieldsFit(init) && FieldsFit(accept) && FieldsFit(init') && FieldsFit(accept')
    requires Transcript(init, accept) == Transcript(init', accept')
    ensures init + accept == init' + accept'
  {
    EncodedJoins(init, accept);
    EncodedJoins(init', accept');
    EncodingIsInjective(init + accept, init' + accept');
  }

  lemma PairInitIsUnique(a: PairInit, b: PairInit)
    requires PairInitFields(a) == PairInitFields(b)
    ensures a == b
  {
    var fa, fb := PairInitFields(a), PairInitFields(b);
    assert fa[2] == fb[2] && fa[3] == fb[3] && fa[4] == fb[4] && fa[5] == fb[5] && fa[6] == fb[6] && fa[7] == fb[7];
    if a.tls.Some? { assert fa[9] == fb[9] && fa[10] == fb[10]; }
  }

  lemma SessionInitIsUnique(a: SessionInit, b: SessionInit)
    requires SessionInitFields(a) == SessionInitFields(b)
    ensures a == b
  {
    var fa, fb := SessionInitFields(a), SessionInitFields(b);
    assert fa[2] == fb[2] && fa[3] == fb[3] && fa[4] == fb[4] && fa[5] == fb[5];
    if a.tls.Some? { assert fa[7] == fb[7] && fa[8] == fb[8]; }
  }

  lemma SplitAt(a: seq<Field>, b: seq<Field>, c: seq<Field>, d: seq<Field>)
    requires a + b == c + d && |b| == |d|
    ensures a == c && b == d
  {
    assert |a| == |a + b| - |b| && |c| == |c + d| - |d|;
    assert a == (a + b)[..|a|] && c == (c + d)[..|c|];
    assert b == (a + b)[|a|..] && d == (c + d)[|c|..];
  }

  /** A pairing transcript determines both sides' messages completely, including whether the
      certificates of the channel are bound in, and which. */
  lemma PairTranscriptDeterminesAll(i: PairInit, a: PairAccept, i': PairInit, a': PairAccept)
    requires FieldsFit(PairInitFields(i)) && FieldsFit(PairAcceptFields(a))
    requires FieldsFit(PairInitFields(i')) && FieldsFit(PairAcceptFields(a'))
    ensures Transcript(PairInitFields(i), PairAcceptFields(a)) == Transcript(PairInitFields(i'), PairAcceptFields(a')) <==>
            i == i' && a == a'
  {
    var ai, aa, bi, ba := PairInitFields(i), PairAcceptFields(a), PairInitFields(i'), PairAcceptFields(a');
    if Transcript(ai, aa) == Transcript(bi, ba) {
      TranscriptIsInjective(ai, aa, bi, ba);
      SplitAt(ai, aa, bi, ba);
      PairInitIsUnique(i, i');
      assert aa[1] == ba[1] && aa[2] == ba[2] && aa[3] == ba[3] && aa[4] == ba[4];
    }
  }

  /** So does a session transcript. */
  lemma SessionTranscriptDeterminesAll(i: SessionInit, a: SessionAccept, i': SessionInit, a': SessionAccept)
    requires FieldsFit(SessionInitFields(i)) && FieldsFit(SessionAcceptFields(a))
    requires FieldsFit(SessionInitFields(i')) && FieldsFit(SessionAcceptFields(a'))
    ensures Transcript(SessionInitFields(i), SessionAcceptFields(a)) == Transcript(SessionInitFields(i'), SessionAcceptFields(a')) <==>
            i == i' && a == a'
  {
    var ai, aa, bi, ba := SessionInitFields(i), SessionAcceptFields(a), SessionInitFields(i'), SessionAcceptFields(a');
    if Transcript(ai, aa) == Transcript(bi, ba) {
      TranscriptIsInjective(ai, aa, bi, ba);
      SplitAt(ai, aa, bi, ba);
      SessionInitIsUnique(i, i');
      assert aa[1] == ba[1] && aa[2] == ba[2] && aa[3] == ba[3];
    }
  }

  /** No pairing transcript is a session transcript. */
  lemma PairAndSessionNeverMeet(i: PairInit, a: PairAccept, i': SessionInit, a': SessionAccept)
    requires FieldsFit(PairInitFields(i)) && FieldsFit(PairAcceptFields(a))
    requires FieldsFit(SessionInitFields(i')) && FieldsFit(SessionAcceptFields(a'))
    ensures Transcript(PairInitFields(i), PairAcceptFields(a)) != Transcript(SessionInitFields(i'), SessionAcceptFields(a'))
  {
    var ai, aa, bi, ba := PairInitFields(i), PairAcceptFields(a), SessionInitFields(i'), SessionAcceptFields(a');
    assert (ai + aa)[0] == Text("pair-init") && (bi + ba)[0] == Text("session-init");
    assert |Text("pair-init")| != |Text("session-init")|;
    if Transcript(ai, aa) == Transcript(bi, ba) {
      TranscriptIsInjective(ai, aa, bi, ba);
    }
  }
}
