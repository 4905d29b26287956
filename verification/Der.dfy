/** The DER encoders for time-stamp requests, against strict X.690 decoders that take only shortest forms. */
module Der {
  import opened Binary
  import opened Frames

  // n.to_bytes((n.bit_length() + 7) // 8, "big")
  function Octets(n: nat): (b: Bytes)
    ensures n > 0 ==> |b| > 0 && b[0] > 0
    ensures n == 0 <==> b == []
  {
    if n == 0 then [] else Octets(n / 256) + [n % 256]
  }

  lemma {:induction false} OctetsValue(n: nat)
    ensures BigEndianValue(Octets(n)) == n
  {
    if n > 0 {
      OctetsValue(n / 256);
      assert Octets(n)[..|Octets(n)| - 1] == Octets(n / 256);
    }
  }

  lemma {:induction false} OctetsCount(n: nat, width: nat)
    ensures |Octets(n)| <= width <==> n < Pow256(width)
  {
    if n > 0 && width > 0 {
      OctetsCount(n / 256, width - 1);
    }
  }

  // ----- Lengths (X.690 section 8.1.3) -----

  // 0x80 | c, for an octet c
  function Or80(c: byte): byte {
    if c < 128 then c + 128 else c
  }

  // None where bytes() refuses a value above 255.
  function DerLen(n: nat): Option<Bytes> {
    if n < 128 then Some([n])
    else
      var body := Octets(n);
      if |body| > 255 then None else Some([Or80(|body|)] + body)
  }

  // Definite form only, in the fewest octets; 0x80 is the indefinite form and 0xFF is reserved.
  function DecodeLen(b: Bytes): Option<(nat, Bytes)> {
    if b == [] then None
    else if b[0] < 128 then Some((b[0], b[1..]))
    else if b[0] == 128 || b[0] == 255 then None
    else
      var count := b[0] - 128;
      if |b| < 1 + count || b[1] == 0 then None
      else
        var n := BigEndianValue(b[1..1 + count]);
        if n < 128 then None else Some((n, b[1 + count..]))
  }

  lemma {:induction false} BigEndianPrefix(b: Bytes, k: nat)
    requires k <= |b|
    ensures BigEndianValue(b[..k]) <= BigEndianValue(b)
    decreases |b|
  {
    if k < |b| {
      BigEndianPrefix(b[..|b| - 1], k);
      assert b[..|b| - 1][..k] == b[..k];
    } else {
      assert b[..k] == b;
    }
  }

  // Length octets announced as one more than they can be are read short, so something is left over.
  lemma DecodeLong(body: Bytes, rest: Bytes)
    requires 1 <= |body| <= 255 && body[0] > 0 && BigEndianValue(body) >= 128
    ensures var r := DecodeLen([Or80(|body|)] + body + rest);
            if |body| <= 126 then r == Some((BigEndianValue(body), rest))
            else r.None? || (|r.value.1| > |rest| && r.value.0 <= BigEndianValue(body))
  {
    var b := [Or80(|body|)] + body + rest;
    assert b[1] == body[0];
    if 129 <= |body| < 255 {
      var count := |body| - 128;
      assert b[1..1 + count] == body[..count];
      BigEndianPrefix(body, count);
    }
    if |body| <= 126 {
      assert b[1..1 + |body|] == body && b[1 + |body|..] == rest;
    }
  }

  // The length octets are correct exactly up to 126 of them, that is for lengths below 256^126.
  lemma DerLenExact(n: nat, rest: Bytes)
    ensures DerLen(n).Some? && DecodeLen(DerLen(n).value + rest) == Some((n, rest)) <==> n < Pow256(126)
  {
    hide Pow256, Octets;
    OctetsCount(n, 126);
    if n < 128 {
      assert ([n] + rest)[1..] == rest;
      SmallLength(n);
    } else {
      hide DecodeLen;
      OctetsValue(n);
      if |Octets(n)| <= 255 {
        DecodeLong(Octets(n), rest);
      }
    }
  }

  lemma SmallLength(n: nat)
    requires n < 128
    ensures n < Pow256(126)
  {
    Pow256Monotone(1, 126);
    assert Pow256(1) == 256;
  }

  lemma {:induction false} Pow256Monotone(i: nat, j: nat)
    requires i <= j
    ensures Pow256(i) <= Pow256(j)
  {
    if i < j {
      Pow256Monotone(i, j - 1);
    }
  }

  predicate Fits(value: Bytes) {
    |value| < Pow256(126)
  }

  // ----- Tag, length, value -----

  lemma TlvSize(n: nat)
    requires n < Pow256(126)
    ensures DerLen(n).Some? && |DerLen(n).value| <= 127
  {
    hide Pow256;
    OctetsCount(n, 126);
  }

  // None where the length raises.
  function Tlv(tag: byte, value: Bytes): (b: Option<Bytes>)
    ensures Fits(value) ==> b.Some? && |b.value| <= |value| + 128
    ensures b.Some? ==> |b.value| > |value|
  {
    assert Fits(value) ==> DerLen(|value|).Some? && |DerLen(|value|).value| <= 127 by {
      if Fits(value) {
        TlvSize(|value|);
      }
    }
    var len := DerLen(|value|);
    if len.None? then None else Some([tag] + len.value + value)
  }

  function ParseTlv(b: Bytes): Option<(byte, Bytes, Bytes)> {
    if b == [] then None
    else
      var len := DecodeLen(b[1..]);
      if len.None? || |len.value.1| < len.value.0 then None
      else Some((b[0], len.value.1[..len.value.0], len.value.1[len.value.0..]))
  }

  // Exactly the values whose length can be written parse back.
  lemma TlvRoundTrip(tag: byte, value: Bytes, rest: Bytes)
    ensures Tlv(tag, value).Some? && ParseTlv(Tlv(tag, value).value + rest) == Some((tag, value, rest)) <==> Fits(value)
  {
    hide DecodeLen, DerLen, Pow256;
    var len, n := DerLen(|value|), |value|;
    DerLenExact(n, value + rest);
    if len.Some? {
      var b := Tlv(tag, value).value + rest;
      assert b[1..] == len.value + (value + rest);
      assert (value + rest)[..n] == value && (value + rest)[n..] == rest;
      var d := DecodeLen(b[1..]);
      if ParseTlv(b) == Some((tag, value, rest)) {
        assert |d.value.1[..d.value.0]| == n;
        assert d.value.1 == d.value.1[..n] + d.value.1[n..];
      }
    }
  }

  // A value that is too long is read short: read alone, it leaves something over.
  lemma TlvTooLong(tag: byte, value: Bytes)
    requires !Fits(value) && Tlv(tag, value).Some?
    ensures var p := ParseTlv(Tlv(tag, value).value);
            p.None? || p.value.2 != []
  {
    hide Pow256, DecodeLen;
    var n := |value|;
    OctetsCount(n, 126);
    OctetsValue(n);
    Small(n);
    DecodeLong(Octets(n), value);
    var b := Tlv(tag, value).value;
    assert b[1..] == [Or80(|Octets(n)|)] + Octets(n) + value;
  }

  lemma Small(n: nat)
    ensures n < 128 ==> n < Pow256(126)
  {
    hide Pow256;
    if n < 128 {
      SmallLength(n);
    }
  }

  // ----- INTEGER (section 8.3) -----

  function IntegerBody(n: nat): (b: Bytes)
    ensures |b| > 0
  {
    if n == 0 then [0]
    else if Octets(n)[0] >= 128 then [0] + Octets(n)
    else Octets(n)
  }

  method BuildIntegerBody(n: nat) returns (out: Bytes)
    ensures out == IntegerBody(n)
  {
    out := [];
    if n == 0 {
      out := [0];
    } else {
      var left: nat := n;
      while left != 0
        invariant Octets(n) == Octets(left) + out
      {
        assert Octets(left) + out == Octets(left / 256) + ([left % 256] + out);
        out := [left % 256] + out;
        left := left / 256;
      }
      if out[0] >= 128 {
        out := [0] + out;
      }
    }
  }

  // Two's complement; the first nine bits may not be all zero or all one.
  function DecodeInteger(b: Bytes): Option<int> {
    if b == [] then None
    else if |b| >= 2 && ((b[0] == 0 && b[1] < 128) || (b[0] == 255 && b[1] >= 128)) then None
    else if b[0] >= 128 then Some(BigEndianValue(b) - Pow256(|b|))
    else Some(BigEndianValue(b))
  }

  lemma IntegerRoundTrip(n: nat)
    ensures DecodeInteger(IntegerBody(n)) == Some(n)
  {
    OctetsValue(n);
    if n > 0 && Octets(n)[0] >= 128 {
      LeadingZero(Octets(n));
    } else if n == 0 {
      assert BigEndianValue([0]) == 256 * BigEndianValue([0][..0]) + 0;
    }
  }

  lemma {:induction false} LeadingZero(b: Bytes)
    ensures BigEndianValue([0] + b) == BigEndianValue(b)
    decreases |b|
  {
    if b == [] {
      assert ([0] + b)[..0] == [];
    } else {
      LeadingZero(b[..|b| - 1]);
      assert ([0] + b)[..|b|] == [0] + b[..|b| - 1];
    }
  }

  // ----- OBJECT IDENTIFIER (section 8.19) -----

  // The octets before the last, each with the high bit set.
  function High(arc: nat): Bytes {
    if arc == 0 then [] else High(arc / 128) + [arc % 128 + 128]
  }

  function Base128(arc: nat): Bytes {
    High(arc / 128) + [arc % 128]
  }

  method BuildBase128(arc: nat) returns (group: Bytes)
    ensures group == Base128(arc)
  {
    group := [arc % 128];
    var left: nat := arc / 128;
    while left != 0
      invariant Base128(arc) == High(left) + group
    {
      assert High(left) + group == High(left / 128) + ([left % 128 + 128] + group);
      group := [left % 128 + 128] + group;
      left := left / 128;
    }
  }

  function Arcs(arcs: seq<nat>): Bytes {
    if arcs == [] then [] else Base128(arcs[0]) + Arcs(arcs[1..])
  }

  // None where indexing or bytes() raises.
  function OidBody(arcs: seq<nat>): Option<Bytes> {
    if |arcs| < 2 || arcs[0] * 40 + arcs[1] > 255 then None
    else Some([arcs[0] * 40 + arcs[1]] + Arcs(arcs[2..]))
  }

  method BuildOidBody(arcs: seq<nat>) returns (body: Option<Bytes>)
    ensures body == OidBody(arcs)
  {
    if |arcs| < 2 || arcs[0] * 40 + arcs[1] > 255 {
      return None;
    }
    var first, out: Bytes := arcs[0] * 40 + arcs[1], [];
    for i := 2 to |arcs|
      invariant out + Arcs(arcs[i..]) == Arcs(arcs[2..])
    {
      var group := BuildBase128(arcs[i]);
      assert arcs[i..][1..] == arcs[i + 1..];
      assert out + (group + Arcs(arcs[i + 1..])) == (out + group) + Arcs(arcs[i + 1..]);
      out := out + group;
    }
    assert arcs[|arcs|..] == [] && out + [] == out;
    return Some([first] + out);
  }

  // One subidentifier, of which acc is the value so far.
  function ReadArc(b: Bytes, acc: nat): Option<(nat, Bytes)> {
    if b == [] then None
    else if b[0] < 128 then Some((acc * 128 + b[0], b[1..]))
    else ReadArc(b[1..], acc * 128 + (b[0] - 128))
  }

  lemma {:induction false} ReadArcShrinks(b: Bytes, acc: nat)
    ensures ReadArc(b, acc).Some? ==> |ReadArc(b, acc).value.1| < |b|
    decreases |b|
  {
    if b != [] && b[0] >= 128 {
      ReadArcShrinks(b[1..], acc * 128 + (b[0] - 128));
    }
  }

  // The leading octet of a subidentifier may not be 0x80.
  function ReadArcs(b: Bytes): Option<seq<nat>>
    decreases |b|
  {
    if b == [] then Some([])
    else if b[0] == 128 then None
    else
      ReadArcShrinks(b, 0);
      var arc := ReadArc(b, 0);
      if arc.None? then None
      else
        var rest := ReadArcs(arc.value.1);
        if rest.None? then None else Some([arc.value.0] + rest.value)
  }

  function DecodeOid(b: Bytes): Option<seq<nat>> {
    var subs := ReadArcs(b);
    if subs.None? || subs.value == [] then None
    else
      var s, rest := subs.value[0], subs.value[1..];
      Some((if s < 40 then [0, s] else if s < 80 then [1, s - 40] else [2, s - 80]) + rest)
  }

  predicate ValidOid(arcs: seq<nat>) {
    |arcs| >= 2 && arcs[0] <= 2 && (arcs[0] < 2 ==> arcs[1] < 40)
  }

  lemma {:induction false} ReadHigh(arc: nat, rest: Bytes)
    ensures ReadArc(High(arc) + rest, 0) == ReadArc(rest, arc)
  {
    if arc == 0 {
      assert High(arc) + rest == rest;
    } else {
      var c := arc % 128 + 128;
      assert High(arc) + rest == High(arc / 128) + ([c] + rest);
      ReadHigh(arc / 128, [c] + rest);
      assert ([c] + rest)[1..] == rest;
    }
  }

  lemma {:induction false} HighLeads(arc: nat)
    requires arc > 0
    ensures |High(arc)| > 0 && High(arc)[0] > 128
  {
    if arc >= 128 {
      HighLeads(arc / 128);
    } else {
      assert High(arc / 128) == [];
    }
  }

  lemma ReadBase128(arc: nat, rest: Bytes)
    ensures ReadArc(Base128(arc) + rest, 0) == Some((arc, rest))
    ensures |Base128(arc)| > 0 && Base128(arc)[0] != 128
  {
    var last := [arc % 128];
    assert Base128(arc) + rest == High(arc / 128) + (last + rest);
    ReadHigh(arc / 128, last + rest);
    assert (last + rest)[1..] == rest;
    if arc >= 128 {
      HighLeads(arc / 128);
    }
  }

  lemma {:induction false} ArcsRoundTrip(arcs: seq<nat>)
    ensures ReadArcs(Arcs(arcs)) == Some(arcs)
    decreases |arcs|
  {
    if arcs != [] {
      var rest := Arcs(arcs[1..]);
      ReadBase128(arcs[0], rest);
      ArcsRoundTrip(arcs[1..]);
      assert (Base128(arcs[0]) + rest)[0] == Base128(arcs[0])[0];
      assert [arcs[0]] + arcs[1..] == arcs;
    }
  }

  // Every subidentifier ends in the one octet without the high bit.
  function Ends(b: Bytes): nat {
    if b == [] then 0 else (if b[0] < 128 then 1 else 0) + Ends(b[1..])
  }

  lemma {:induction false} EndsAdd(a: Bytes, b: Bytes)
    ensures Ends(a + b) == Ends(a) + Ends(b)
    decreases |a|
  {
    if a == [] {
      assert a + b == b;
    } else {
      EndsAdd(a[1..], b);
      assert (a + b)[1..] == a[1..] + b;
    }
  }

  lemma {:induction false} ReadArcEnds(b: Bytes, acc: nat)
    ensures ReadArc(b, acc).Some? ==> Ends(b) == 1 + Ends(ReadArc(b, acc).value.1)
    decreases |b|
  {
    if b != [] && b[0] >= 128 {
      ReadArcEnds(b[1..], acc * 128 + (b[0] - 128));
    }
  }

  lemma {:induction false} ReadArcsEnds(b: Bytes)
    ensures ReadArcs(b).Some? ==> |ReadArcs(b).value| == Ends(b)
    decreases |b|
  {
    if b != [] && b[0] != 128 {
      ReadArcShrinks(b, 0);
      ReadArcEnds(b, 0);
      if ReadArc(b, 0).Some? {
        ReadArcsEnds(ReadArc(b, 0).value.1);
      }
    }
  }

  // The first two arcs share one raw octet, which is a subidentifier only below 128: the encoding is
  // correct exactly for valid OIDs with 40 * first + second < 128.
  lemma OidExact(arcs: seq<nat>)
    ensures OidBody(arcs).Some? && DecodeOid(OidBody(arcs).value) == Some(arcs)
            <==> ValidOid(arcs) && 40 * arcs[0] + arcs[1] < 128
  {
    if OidBody(arcs).Some? {
      var first, rest := arcs[0] * 40 + arcs[1], Arcs(arcs[2..]);
      var b := [first] + rest;
      ArcsRoundTrip(arcs[2..]);
      assert b[1..] == rest;
      if first < 128 {
        assert ReadArc(b, 0) == Some((first, rest));
        assert ReadArcs(b) == Some([first] + arcs[2..]);
        assert ([first] + arcs[2..])[1..] == arcs[2..];
        FirstTwo(arcs);
      } else {
        ReadArcsEnds(b);
        ReadArcsEnds(rest);
      }
    }
  }

  lemma FirstTwo(arcs: seq<nat>)
    requires |arcs| >= 2
    ensures var s := arcs[0] * 40 + arcs[1];
            (if s < 40 then [0, s] else if s < 80 then [1, s - 40] else [2, s - 80]) + arcs[2..] == arcs
            <==> ValidOid(arcs)
  {
    var s := arcs[0] * 40 + arcs[1];
    var two := if s < 40 then [0, s] else if s < 80 then [1, s - 40] else [2, s - 80];
    assert arcs == [arcs[0], arcs[1]] + arcs[2..];
    if two + arcs[2..] == arcs {
      assert (two + arcs[2..])[0] == two[0] && (two + arcs[2..])[1] == two[1];
    }
  }

  // ----- TimeStampReq (RFC 3161 section 2.4.1) -----

  const SHA256_OID_ARCS: seq<nat> := [2, 16, 840, 1, 101, 3, 4, 2, 1]

  lemma Roomy()
    ensures 2000 < Pow256(126)
  {
    Pow256Monotone(2, 126);
    assert Pow256(2) == 65536;
  }

  lemma OidShort()
    ensures OidBody(SHA256_OID_ARCS).Some? && |OidBody(SHA256_OID_ARCS).value| < 100
  {
    assert |High(6)| == 1 && |High(0)| == 0;
    var a := SHA256_OID_ARCS[2..];
    assert a == [840, 1, 101, 3, 4, 2, 1];
    ArcsShort(a);
  }

  lemma {:induction false} ArcsShort(arcs: seq<nat>)
    requires forall i :: 0 <= i < |arcs| ==> arcs[i] < 128 * 128
    ensures |Arcs(arcs)| <= 2 * |arcs|
    decreases |arcs|
  {
    if arcs != [] {
      var hi := arcs[0] / 128;
      assert hi < 128 && High(hi / 128) == [];
      assert |High(hi)| <= 1;
      ArcsShort(arcs[1..]);
    }
  }

  function Algorithm(): (b: Bytes)
    ensures |b| < 500
  {
    Roomy();
    OidShort();
    Tlv(48, Tlv(6, OidBody(SHA256_OID_ARCS).value).value + Tlv(5, []).value).value
  }

  lemma ImprintFits(digest: Digest)
    ensures Fits(digest) && |Tlv(4, digest).value| <= 160
    ensures Fits(Algorithm() + Tlv(4, digest).value) && |Algorithm() + Tlv(4, digest).value| < 660
  {
    hide Tlv, Algorithm, Pow256;
    Roomy();
  }

  function Imprint(digest: Digest): (b: Bytes)
    ensures |b| < 800
  {
    ImprintFits(digest);
    Tlv(48, Algorithm() + Tlv(4, digest).value).value
  }

  function NonceField(nonce: Option<nat>): (f: Option<Bytes>)
    ensures f.Some? && nonce.Some? ==> |f.value| > |IntegerBody(nonce.value)|
  {
    if nonce.None? then Some([]) else Tlv(2, IntegerBody(nonce.value))
  }

  function VersionField(): Bytes {
    Roomy();
    SmallIntegerBody();
    Tlv(2, IntegerBody(1)).value
  }

  function CertReqField(): Bytes {
    Roomy();
    Tlv(1, [255]).value
  }

  function RequestBody(digest: Digest, nonce: Option<nat>): (b: Option<Bytes>)
    ensures b.Some? <==> NonceField(nonce).Some?
    ensures b.Some? ==> |b.value| >= |NonceField(nonce).value|
  {
    var n := NonceField(nonce);
    if n.None? then None
    else Some(VersionField() + Imprint(digest) + n.value + CertReqField())
  }

  // None where a length raises.
  function TimestampReq(digest: Digest, nonce: Option<nat>): Option<Bytes> {
    var body := RequestBody(digest, nonce);
    if body.None? then None else Tlv(48, body.value)
  }

  // Everything after the outer tag and length can be counted in a length field.
  predicate RequestFits(digest: Digest, nonce: Option<nat>) {
    RequestBody(digest, nonce).Some? && Fits(RequestBody(digest, nonce).value)
  }

  // The value of a leading element with the expected tag, and what follows it.
  function Expect(tag: byte, b: Bytes): Option<(Bytes, Bytes)> {
    var p := ParseTlv(b);
    if p.None? || p.value.0 != tag then None else Some((p.value.1, p.value.2))
  }

  lemma ExpectTlv(tag: byte, value: Bytes, rest: Bytes)
    requires Fits(value)
    ensures Expect(tag, Tlv(tag, value).value + rest) == Some((value, rest))
    ensures forall other: byte :: other != tag ==> Expect(other, Tlv(tag, value).value + rest) == None
  {
    hide Tlv, ParseTlv, Pow256;
    TlvRoundTrip(tag, value, rest);
  }

  // The object identifier of an AlgorithmIdentifier with NULL parameters.
  function ParseAlgorithm(b: Bytes): Option<seq<nat>> {
    var oid := Expect(6, b);
    if oid.None? || Expect(5, oid.value.1) != Some(([], [])) then None else DecodeOid(oid.value.0)
  }

  // The hash algorithm and the digest of a message imprint.
  function ParseImprint(b: Bytes): Option<(seq<nat>, Bytes)> {
    var algorithm := Expect(48, b);
    if algorithm.None? || ParseAlgorithm(algorithm.value.0).None? then None
    else
      var d := Expect(4, algorithm.value.1);
      if d.None? || d.value.1 != [] then None else Some((ParseAlgorithm(algorithm.value.0).value, d.value.0))
  }

  datatype Request = Request(algorithm: seq<nat>, digest: Bytes, nonce: Option<int>)

  // Version 1, an imprint, an optional nonce, certReq TRUE, and nothing after them.
  function ParseRequest(b: Bytes): Option<Request> {
    var outer := Expect(48, b);
    if outer.None? || outer.value.1 != [] then None
    else
      var version := Expect(2, outer.value.0);
      if version.None? || DecodeInteger(version.value.0) != Some(1) then None
      else
        var imprint := Expect(48, version.value.1);
        if imprint.None? || ParseImprint(imprint.value.0).None? then None
        else
          var (algorithm, digest), rest := ParseImprint(imprint.value.0).value, imprint.value.1;
          var nonce := Expect(2, rest);
          if nonce.None? then
            if Expect(1, rest) == Some(([255], [])) then Some(Request(algorithm, digest, None)) else None
          else if Expect(1, nonce.value.1) == Some(([255], [])) && DecodeInteger(nonce.value.0).Some?
          then Some(Request(algorithm, digest, DecodeInteger(nonce.value.0)))
          else None
  }

  lemma AlgorithmRoundTrip(rest: Bytes)
    ensures var inner := Expect(48, Algorithm() + rest);
            && inner.Some? && inner.value.1 == rest
            && ParseAlgorithm(inner.value.0) == Some([2, 16, 840, 1, 101, 3, 4, 2, 1])
  {
    hide Tlv, Expect, DecodeOid, OidBody, Pow256;
    Roomy();
    OidShort();
    OidExact(SHA256_OID_ARCS);
    var oid := OidBody(SHA256_OID_ARCS).value;
    var parameters := Tlv(5, []).value;
    ExpectTlv(48, Tlv(6, oid).value + parameters, rest);
    ExpectTlv(6, oid, parameters);
    ExpectTlv(5, [], []);
    assert parameters + [] == parameters;
  }

  lemma ImprintRoundTrip(digest: Digest)
    ensures |Algorithm()| + 200 < 2000 && Fits(digest) && Fits(Algorithm() + Tlv(4, digest).value)
    ensures ParseImprint(Algorithm() + Tlv(4, digest).value) == Some(([2, 16, 840, 1, 101, 3, 4, 2, 1], digest))
  {
    hide Tlv, Algorithm, Expect, Pow256, ParseAlgorithm;
    Roomy();
    var d := Tlv(4, digest).value;
    AlgorithmRoundTrip(d);
    assert d == d + [];
    ExpectTlv(4, digest, []);
  }

  lemma SmallIntegerBody()
    ensures IntegerBody(1) == [1]
  {
    assert Octets(1) == [1];
  }

  // A request that fits parses back.
  lemma RequestParses(digest: Digest, nonce: Option<nat>)
    requires RequestFits(digest, nonce)
    ensures TimestampReq(digest, nonce).Some?
    ensures ParseRequest(TimestampReq(digest, nonce).value) == Some(Request([2, 16, 840, 1, 101, 3, 4, 2, 1], digest, nonce))
  {
    hide Tlv, Expect, ParseImprint, DecodeInteger, IntegerBody, Pow256, Algorithm;
    Roomy();
    SmallIntegerBody();
    ImprintRoundTrip(digest);
    var body := RequestBody(digest, nonce).value;
    ExpectTlv(48, body, []);
    assert Tlv(48, body).value + [] == Tlv(48, body).value;
    var version, field, certReq := VersionField(), NonceField(nonce).value, CertReqField();
    var afterImprint := field + certReq;
    var inner := Algorithm() + Tlv(4, digest).value;
    var imprint := Tlv(48, inner).value;
    assert body == version + (imprint + afterImprint);
    ExpectTlv(2, IntegerBody(1), imprint + afterImprint);
    IntegerRoundTrip(1);
    ExpectTlv(48, inner, afterImprint);
    ExpectTlv(1, [255], []);
    assert certReq + [] == certReq;
    if nonce.Some? {
      ExpectTlv(2, IntegerBody(nonce.value), certReq);
      IntegerRoundTrip(nonce.value);
    } else {
      assert afterImprint == certReq;
    }
  }

  // A request parses back, SHA-256's identifier, digest and nonce, exactly when it fits.
  lemma RequestRoundTrip(digest: Digest, nonce: Option<nat>)
    ensures TimestampReq(digest, nonce).Some?
            && ParseRequest(TimestampReq(digest, nonce).value) == Some(Request([2, 16, 840, 1, 101, 3, 4, 2, 1], digest, nonce))
            <==> RequestFits(digest, nonce)
  {
    hide Tlv, ParseTlv, RequestBody, ParseImprint, DecodeInteger, Pow256;
    if RequestFits(digest, nonce) {
      RequestParses(digest, nonce);
    } else if TimestampReq(digest, nonce).Some? {
      TlvTooLong(48, RequestBody(digest, nonce).value);
    }
  }

  lemma RequestInjective(d: Digest, n: Option<nat>, d': Digest, n': Option<nat>)
    requires RequestFits(d, n) && RequestFits(d', n')
    ensures TimestampReq(d, n) == TimestampReq(d', n') <==> d == d' && n == n'
  {
    RequestParses(d, n);
    RequestParses(d', n');
  }

  // ----- The bytes themselves, as in the recorded requests -----

  lemma Short(tag: byte, value: Bytes)
    requires |value| < 128
    ensures Tlv(tag, value) == Some([tag, |value|] + value)
  {
    assert [tag] + [|value|] == [tag, |value|];
  }

  // 2.16.840.1.101.3.4.2.1
  function Sha256Oid(): (b: Bytes)
    ensures b == [96, 134, 72, 1, 101, 3, 4, 2, 1]
  {
    [96, 134, 72, 1, 101, 3, 4, 2, 1]
  }

  lemma AlgorithmBytes()
    ensures Algorithm() == [48, 13] + ([6, 9] + Sha256Oid() + [5, 0])
  {
    hide Tlv, Sha256Oid, OidBody;
    OidBytes();
    Short(6, Sha256Oid());
    Short(5, []);
    Short(48, [6, 9] + Sha256Oid() + [5, 0]);
    assert [5, 0] + [] == [5, 0];
  }

  lemma OidBytes()
    ensures OidBody(SHA256_OID_ARCS) == Some(Sha256Oid())
  {
    hide Arcs;
    var rest := SHA256_OID_ARCS[2..];
    assert rest == [840, 1, 101, 3, 4, 2, 1];
    assert Arcs(rest) == Base128(840) + [1, 101, 3, 4, 2, 1] by {
      ArcBytes();
    }
    assert High(6) == High(0) + [134] == [134];
    assert Base128(840) == [134, 72];
    assert [96] + ([134, 72] + [1, 101, 3, 4, 2, 1]) == [96, 134, 72, 1, 101, 3, 4, 2, 1];
    assert OidBody(SHA256_OID_ARCS) == Some([96] + Arcs(rest));
  }

  lemma ArcBytes()
    ensures Arcs([840, 1, 101, 3, 4, 2, 1]) == Base128(840) + [1, 101, 3, 4, 2, 1]
  {
    assert [840, 1, 101, 3, 4, 2, 1][1..] == [1, 101, 3, 4, 2, 1];
    assert [1, 101, 3, 4, 2, 1][1..] == [101, 3, 4, 2, 1] && [101, 3, 4, 2, 1][1..] == [3, 4, 2, 1];
    assert [3, 4, 2, 1][1..] == [4, 2, 1] && [4, 2, 1][1..] == [2, 1] && [2, 1][1..] == [1];
    assert Arcs([2, 1]) == [2, 1];
    assert Arcs([3, 4, 2, 1]) == [3, 4, 2, 1];
  }

  // For every digest: without a nonce, with a two-octet one, and with one that needs a leading zero.
  lemma RequestBytes(digest: Digest)
    ensures var imprint := [48, 49] + ([48, 13] + ([6, 9] + [96, 134, 72, 1, 101, 3, 4, 2, 1] + [5, 0])) + [4, 32] + digest;
            && TimestampReq(digest, None) == Some([48, 57] + [2, 1, 1] + imprint + [] + [1, 1, 255])
            && TimestampReq(digest, Some(0x1234)) == Some([48, 61] + [2, 1, 1] + imprint + [2, 2, 18, 52] + [1, 1, 255])
            && TimestampReq(digest, Some(128)) == Some([48, 61] + [2, 1, 1] + imprint + [2, 2, 0, 128] + [1, 1, 255])
  {
    hide Tlv, IntegerBody, TimestampReq, Imprint;
    IntegerBytes();
    ImprintBytes(digest);
    Short(2, [18, 52]);
    Short(2, [0, 128]);
    assert [2, 2] + [18, 52] == [2, 2, 18, 52] && [2, 2] + [0, 128] == [2, 2, 0, 128];
    RequestOf(digest, None, []);
    RequestOf(digest, Some(0x1234), [2, 2, 18, 52]);
    RequestOf(digest, Some(128), [2, 2, 0, 128]);
  }

  lemma IntegerBytes()
    ensures IntegerBody(0x1234) == [18, 52] && IntegerBody(128) == [0, 128]
  {
    assert Octets(0x1234) == Octets(0x12) + [52] && Octets(0x12) == [18];
    assert Octets(128) == [128];
  }

  lemma FieldBytes()
    ensures VersionField() == [2, 1, 1] && CertReqField() == [1, 1, 255]
  {
    hide Tlv, IntegerBody;
    SmallIntegerBody();
    Short(2, [1]);
    Short(1, [255]);
    assert [2, 1] + [1] == [2, 1, 1] && [1, 1] + [255] == [1, 1, 255];
  }

  lemma ImprintBytes(digest: Digest)
    ensures Imprint(digest) == [48, 49] + ([48, 13] + ([6, 9] + Sha256Oid() + [5, 0])) + [4, 32] + digest
    ensures |Imprint(digest)| == 51
  {
    hide Tlv, Algorithm, Sha256Oid;
    AlgorithmBytes();
    Short(4, digest);
    var algorithm := Algorithm();
    var content := algorithm + ([4, 32] + digest);
    Short(48, content);
    assert [48, 49] + content == [48, 49] + algorithm + [4, 32] + digest;
  }

  lemma RequestOf(digest: Digest, nonce: Option<nat>, field: Bytes)
    requires NonceField(nonce) == Some(field) && |field| <= 4
    ensures TimestampReq(digest, nonce) == Some([48, 57 + |field|] + [2, 1, 1] + Imprint(digest) + field + [1, 1, 255])
  {
    hide Tlv, Imprint, VersionField, CertReqField, NonceField;
    FieldBytes();
    ImprintBytes(digest);
    var body := [2, 1, 1] + Imprint(digest) + field + [1, 1, 255];
    assert RequestBody(digest, nonce) == Some(body);
    Short(48, body);
    assert [48, |body|] + body == [48, 57 + |field|] + [2, 1, 1] + Imprint(digest) + field + [1, 1, 255];
  }
}
