/** The lp64 frames that are hashed: each parses back to its fields, and no two kinds coincide. */
module Frames {
  import opened Binary

  // A str, as its UTF-8 bytes.
  type Text = Bytes

  // ----- Numbers -----

  // str(n)
  function Decimal(n: nat): (t: Text)
    ensures |t| > 0
    ensures forall i :: 0 <= i < |t| ==> 48 <= t[i] <= 57
  {
    if n < 10 then [48 + n] else Decimal(n / 10) + [48 + n % 10]
  }

  // int(t), on digits
  function DecimalValue(t: Text): nat {
    if t == [] then 0 else 10 * DecimalValue(t[..|t| - 1]) + if t[|t| - 1] >= 48 then t[|t| - 1] - 48 else 0
  }

  lemma {:induction false} DecimalRoundTrip(n: nat)
    ensures DecimalValue(Decimal(n)) == n
  {
    if n >= 10 {
      DecimalRoundTrip(n / 10);
      assert Decimal(n)[..|Decimal(n)| - 1] == Decimal(n / 10);
    }
  }

  const U64_LIMIT := 0x1_0000_0000_0000_0000

  function BigEndian(n: nat, width: nat): (b: Bytes)
    ensures |b| == width
  {
    if width == 0 then [] else BigEndian(n / 256, width - 1) + [n % 256]
  }

  function BigEndianValue(b: Bytes): nat {
    if b == [] then 0 else 256 * BigEndianValue(b[..|b| - 1]) + b[|b| - 1]
  }

  function Pow256(width: nat): (p: nat)
    ensures p >= 1
  {
    if width == 0 then 1 else 256 * Pow256(width - 1)
  }

  lemma {:induction false} BigEndianRoundTrip(n: nat, width: nat)
    requires n < Pow256(width)
    ensures BigEndianValue(BigEndian(n, width)) == n
  {
    if width > 0 {
      BigEndianRoundTrip(n / 256, width - 1);
      assert BigEndian(n, width)[..width - 1] == BigEndian(n / 256, width - 1);
    }
  }

  // struct.pack(">Q", n), which refuses anything larger
  function U64be(n: nat): (b: Bytes)
    requires n < U64_LIMIT
    ensures |b| == 8 && BigEndianValue(b) == n
  {
    assert Pow256(8) == U64_LIMIT;
    BigEndianRoundTrip(n, 8);
    BigEndian(n, 8)
  }

  // ----- Length-prefixed fields -----

  predicate Packs(enc: Bytes) {
    |enc| < U64_LIMIT
  }

  function Prefixed(enc: Bytes): Bytes
    requires Packs(enc)
  {
    U64be(|enc|) + enc
  }

  function Unprefix(b: Bytes): Option<(Bytes, Bytes)> {
    if |b| < 8 then None
    else
      var n := BigEndianValue(b[..8]);
      if |b| < 8 + n then None else Some((b[8..8 + n], b[8 + n..]))
  }

  lemma UnprefixPrefixed(enc: Bytes, rest: Bytes)
    requires Packs(enc)
    ensures Unprefix(Prefixed(enc) + rest) == Some((enc, rest))
  {
    var b := Prefixed(enc) + rest;
    assert b[..8] == U64be(|enc|);
    assert b[8..8 + |enc|] == enc && b[8 + |enc|..] == rest;
  }

  function Tagged(value: Option<Text>): Bytes {
    if value.None? then [0] else [1] + value.value
  }

  function Untagged(enc: Bytes): Option<Option<Text>> {
    if enc == [0] then Some(None)
    else if |enc| > 0 && enc[0] == 1 then Some(Some(enc[1..]))
    else None
  }

  // lp: the tag is inside the length-prefixed region.
  function Lp(value: Option<Text>): Bytes
    requires Packs(Tagged(value))
  {
    Prefixed(Tagged(value))
  }

  function ParseLp(b: Bytes): Option<(Option<Text>, Bytes)> {
    var p := Unprefix(b);
    if p.None? then None
    else
      var v := Untagged(p.value.0);
      if v.None? then None else Some((v.value, p.value.1))
  }

  lemma LpRoundTrip(value: Option<Text>, rest: Bytes)
    requires Packs(Tagged(value))
    ensures ParseLp(Lp(value) + rest) == Some((value, rest))
  {
    UnprefixPrefixed(Tagged(value), rest);
    if value.Some? {
      assert Tagged(value)[1..] == value.value;
    }
  }

  // ----- Whole frames -----

  datatype Kind = HeaderKind | CheckpointV1Kind | CheckpointV2Kind | AggCommitKind | DescriptorKind | ReceiptKind

  function Ascii(s: string): (t: Text)
    ensures |t| == |s| && forall i :: 0 <= i < |s| ==> t[i] == s[i] as int % 256
  {
    seq(|s|, i requires 0 <= i < |s| => s[i] as int % 256)
  }

  function Name(kind: Kind): string {
    match kind
    case HeaderKind => "waxseal-lp64"
    case CheckpointV1Kind => "waxseal-checkpoint-v1"
    case CheckpointV2Kind => "waxseal-checkpoint-v2"
    case AggCommitKind => "waxseal-aggcommit-v1"
    case DescriptorKind => "waxseal-descriptor-v1"
    case ReceiptKind => "waxseal-receipt-v1"
  }

  // The descriptor frame alone leaves out the type tag.
  function Encoded(kind: Kind, field: Text): Bytes {
    if kind == DescriptorKind then field else Tagged(Some(field))
  }

  predicate Fits(kind: Kind, fields: seq<Text>) {
    |fields| < U64_LIMIT && forall i :: 0 <= i < |fields| ==> Packs(Encoded(kind, fields[i]))
  }

  function Fields(kind: Kind, fields: seq<Text>): Bytes
    requires Fits(kind, fields)
  {
    if fields == [] then []
    else Fields(kind, fields[..|fields| - 1]) + Prefixed(Encoded(kind, fields[|fields| - 1]))
  }

  function Frame(kind: Kind, fields: seq<Text>): Bytes
    requires Fits(kind, fields)
  {
    Ascii(Name(kind)) + [10] + U64be(|fields|) + Fields(kind, fields)
  }

  lemma FieldsSnoc(kind: Kind, fields: seq<Text>, i: nat)
    requires Fits(kind, fields) && i < |fields|
    ensures Fields(kind, fields[..i + 1]) == Fields(kind, fields[..i]) + Prefixed(Encoded(kind, fields[i]))
  {
    assert fields[..i + 1][..i] == fields[..i];
  }

  // One more field: bare in a descriptor, and tagged as a string everywhere else.
  lemma FieldAppended(kind: Kind, fields: seq<Text>, t: Text)
    requires Fits(kind, fields + [t]) && Fits(kind, fields)
    ensures kind != DescriptorKind ==> Packs(Tagged(Some(t)))
    ensures kind == DescriptorKind ==> Packs(t)
    ensures Fields(kind, fields + [t]) == Fields(kind, fields) + if kind == DescriptorKind then U64be(|t|) + t else Lp(Some(t))
  {
    hide U64be;
    assert (fields + [t])[..|fields|] == fields && (fields + [t])[|fields|] == t;
  }

  // The generators grow the frame field by field.
  method BuildFrame(kind: Kind, fields: seq<Text>) returns (frame: Bytes)
    requires Fits(kind, fields)
    ensures frame == Frame(kind, fields)
  {
    hide Fields, Encoded, Ascii, U64be, Prefixed;
    frame := Ascii(Name(kind)) + [10] + U64be(|fields|);
    ghost var start, body: Bytes := frame, [];
    assert fields[..0] == [];
    FieldsNone(kind);
    for i := 0 to |fields|
      invariant body == Fields(kind, fields[..i]) && frame == start + body
    {
      FieldsSnoc(kind, fields, i);
      var field := Prefixed(Encoded(kind, fields[i]));
      assert (start + body) + field == start + (body + field);
      frame, body := frame + field, body + field;
    }
    assert fields[..|fields|] == fields;
  }

  lemma FieldsNone(kind: Kind)
    ensures Fields(kind, []) == []
  {
  }

  function Decoded(kind: Kind, enc: Bytes): Option<Text> {
    if kind == DescriptorKind then Some(enc)
    else if |enc| > 0 && enc[0] == 1 then Some(enc[1..])
    else None
  }

  // Exactly count fields, and nothing after them.
  function ParseFields(kind: Kind, b: Bytes, count: nat): Option<seq<Text>>
    decreases count
  {
    if count == 0 then (if b == [] then Some([]) else None)
    else
      var p := Unprefix(b);
      if p.None? then None
      else
        var first, rest := Decoded(kind, p.value.0), ParseFields(kind, p.value.1, count - 1);
        if first.None? || rest.None? then None else Some([first.value] + rest.value)
  }

  lemma {:induction false} FieldsCons(kind: Kind, fields: seq<Text>)
    requires Fits(kind, fields) && fields != []
    ensures Fits(kind, fields[1..])
    ensures Fields(kind, fields) == Prefixed(Encoded(kind, fields[0])) + Fields(kind, fields[1..])
    decreases |fields|
  {
    hide Encoded, Prefixed;
    var n := |fields|;
    var first, last := Prefixed(Encoded(kind, fields[0])), Prefixed(Encoded(kind, fields[n - 1]));
    if n == 1 {
      assert fields[..0] == [] && fields[1..] == [];
      assert Fields(kind, fields) == [] + last && first + [] == first;
    } else {
      var init := fields[..n - 1];
      FieldsCons(kind, init);
      assert fields[1..][..n - 2] == init[1..];
      assert Fields(kind, fields[1..]) == Fields(kind, init[1..]) + last;
      assert (first + Fields(kind, init[1..])) + last == first + (Fields(kind, init[1..]) + last);
    }
  }

  lemma DecodedEncoded(kind: Kind, field: Text)
    ensures Decoded(kind, Encoded(kind, field)) == Some(field)
  {
    assert kind != DescriptorKind ==> Encoded(kind, field)[1..] == field;
  }

  lemma {:induction false} FieldsRoundTrip(kind: Kind, fields: seq<Text>)
    requires Fits(kind, fields)
    ensures ParseFields(kind, Fields(kind, fields), |fields|) == Some(fields)
    decreases |fields|
  {
    hide Fields, Encoded, Decoded, Prefixed, Unprefix;
    FieldsNone(kind);
    if fields != [] {
      var enc, rest := Encoded(kind, fields[0]), Fields(kind, fields[1..]);
      FieldsCons(kind, fields);
      UnprefixPrefixed(enc, rest);
      DecodedEncoded(kind, fields[0]);
      FieldsRoundTrip(kind, fields[1..]);
      assert [fields[0]] + fields[1..] == fields;
    }
  }

  // The name runs to the first newline.
  function NewlineAt(b: Bytes): nat
    ensures NewlineAt(b) <= |b|
  {
    if b == [] || b[0] == 10 then 0 else 1 + NewlineAt(b[1..])
  }

  lemma {:induction false} NewlineAtEnd(name: Bytes, rest: Bytes)
    requires forall i :: 0 <= i < |name| ==> name[i] != 10
    ensures NewlineAt(name + [10] + rest) == |name|
    decreases |name|
  {
    if name == [] {
      assert name + [10] + rest == [10] + rest;
    } else {
      NewlineAtEnd(name[1..], rest);
      assert (name + [10] + rest)[1..] == name[1..] + [10] + rest;
    }
  }

  function KindNamed(name: Bytes): Option<Kind> {
    if name == Ascii(Name(HeaderKind)) then Some(HeaderKind)
    else if name == Ascii(Name(CheckpointV1Kind)) then Some(CheckpointV1Kind)
    else if name == Ascii(Name(CheckpointV2Kind)) then Some(CheckpointV2Kind)
    else if name == Ascii(Name(AggCommitKind)) then Some(AggCommitKind)
    else if name == Ascii(Name(DescriptorKind)) then Some(DescriptorKind)
    else if name == Ascii(Name(ReceiptKind)) then Some(ReceiptKind)
    else None
  }

  function ParseFrame(b: Bytes): Option<(Kind, seq<Text>)> {
    var at := NewlineAt(b);
    var kind := KindNamed(b[..at]);
    if kind.None? || |b| < at + 9 then None
    else
      var fields := ParseFields(kind.value, b[at + 9..], BigEndianValue(b[at + 1..at + 9]));
      if fields.None? then None else Some((kind.value, fields.value))
  }

  lemma NamesDiffer(kind: Kind)
    ensures KindNamed(Ascii(Name(kind))) == Some(kind)
    ensures forall i :: 0 <= i < |Name(kind)| ==> Ascii(Name(kind))[i] != 10
  {
    hide Ascii;
    var v1, v2, d := Ascii(Name(CheckpointV1Kind)), Ascii(Name(CheckpointV2Kind)), Ascii(Name(DescriptorKind));
    assert v1[20] == 49 && v2[20] == 50;
    assert v1[8] == v2[8] == 99 && d[8] == 100;
  }

  // Frames of every kind parse back, so equal frames have one kind and the same fields.
  lemma FrameRoundTrip(kind: Kind, fields: seq<Text>)
    requires Fits(kind, fields)
    ensures ParseFrame(Frame(kind, fields)) == Some((kind, fields))
  {
    hide Fields, ParseFields, Ascii, U64be, NewlineAt, KindNamed, Name, BigEndianValue;
    var name, b := Ascii(Name(kind)), Frame(kind, fields);
    NamesDiffer(kind);
    NewlineAtEnd(name, U64be(|fields|) + Fields(kind, fields));
    assert b == name + [10] + (U64be(|fields|) + Fields(kind, fields));
    assert b[..|name|] == name;
    assert b[|name| + 1..|name| + 9] == U64be(|fields|);
    assert b[|name| + 9..] == Fields(kind, fields);
    FieldsRoundTrip(kind, fields);
  }

  // The first line of each kind and the count after it, as written.
  lemma FrameBegins(kind: Kind, fields: seq<Text>)
    requires Fits(kind, fields)
    ensures var line := match kind
                        case HeaderKind => "waxseal-lp64\n"
                        case CheckpointV1Kind => "waxseal-checkpoint-v1\n"
                        case CheckpointV2Kind => "waxseal-checkpoint-v2\n"
                        case AggCommitKind => "waxseal-aggcommit-v1\n"
                        case DescriptorKind => "waxseal-descriptor-v1\n"
                        case ReceiptKind => "waxseal-receipt-v1\n";
            Ascii(line) + U64be(|fields|) <= Frame(kind, fields)
  {
    hide U64be, Fields;
    var head := Ascii(Name(kind)) + [10];
    assert Frame(kind, fields) == head + U64be(|fields|) + Fields(kind, fields);
    assert head == Ascii(Name(kind) + "\n");
  }

  lemma {:induction false} SmallBigEndian(n: nat, width: nat)
    requires n < 256 && width >= 1
    ensures BigEndian(n, width) == seq(width - 1, _ => 0) + [n]
    decreases width
  {
    if width > 1 {
      SmallBigEndian(0, width - 1);
    } else {
      assert BigEndian(n / 256, 0) == [];
    }
  }

  // Absent and present values of up to 254 bytes, as they go into a frame.
  lemma LpBytes(t: Text)
    requires |t| < 255
    ensures Lp(None) == [0, 0, 0, 0, 0, 0, 0, 1, 0]
    ensures Packs(Tagged(Some(t))) && Lp(Some(t)) == [0, 0, 0, 0, 0, 0, 0, |t| + 1, 1] + t
  {
    hide BigEndian, BigEndianValue, Pow256;
    SmallCount(1);
    SmallCount(|t| + 1);
    assert [0, 0, 0, 0, 0, 0, 0, |t| + 1] + ([1] + t) == [0, 0, 0, 0, 0, 0, 0, |t| + 1, 1] + t;
  }

  lemma SmallCount(n: nat)
    requires n < 256
    ensures U64be(n) == [0, 0, 0, 0, 0, 0, 0, n]
  {
    hide BigEndian, BigEndianValue, Pow256;
    SmallBigEndian(n, 8);
  }

  lemma DecimalBytes()
    ensures Decimal(0) == Ascii("0") && Decimal(120) == Ascii("120")
  {
    assert Decimal(12) == Decimal(1) + [50] && Decimal(120) == Decimal(12) + [48];
  }

  lemma FrameInjective(k1: Kind, f1: seq<Text>, k2: Kind, f2: seq<Text>)
    requires Fits(k1, f1) && Fits(k2, f2)
    ensures Frame(k1, f1) == Frame(k2, f2) <==> k1 == k2 && f1 == f2
  {
    FrameRoundTrip(k1, f1);
    FrameRoundTrip(k2, f2);
  }

  // ----- The frames by what they say -----

  datatype Header = Header(seqNo: nat, ts: Text, hashVersion: Text, payloadType: Text, payloadHash: Text, prevHash: Text)

  function HeaderFields(x: Header): seq<Text> {
    [Decimal(x.seqNo), x.ts, x.hashVersion, x.payloadType, x.payloadHash, x.prevHash]
  }

  lemma HeaderFrameInjective(x: Header, y: Header)
    requires Fits(HeaderKind, HeaderFields(x)) && Fits(HeaderKind, HeaderFields(y))
    ensures Frame(HeaderKind, HeaderFields(x)) == Frame(HeaderKind, HeaderFields(y)) <==> x == y
  {
    var fx, fy := HeaderFields(x), HeaderFields(y);
    FrameInjective(HeaderKind, fx, HeaderKind, fy);
    DecimalRoundTrip(x.seqNo);
    DecimalRoundTrip(y.seqNo);
    if fx == fy {
      assert fx[0] == fy[0] && fx[1] == fy[1] && fx[2] == fy[2] && fx[3] == fy[3] && fx[4] == fy[4] && fx[5] == fy[5];
    }
  }

  lemma HeaderParses(x: Header)
    requires Fits(HeaderKind, HeaderFields(x))
    ensures ParseFrame(Frame(HeaderKind, HeaderFields(x))) ==
            Some((HeaderKind, [Decimal(x.seqNo), x.ts, x.hashVersion, x.payloadType, x.payloadHash, x.prevHash]))
  {
    FrameRoundTrip(HeaderKind, HeaderFields(x));
  }

  datatype Checkpoint = Checkpoint(seqNo: nat, entryHash: Text, root: Text, epoch: Option<nat>, commit: Option<Text>)

  // str(epoch), also of None
  function EpochText(epoch: Option<nat>): Text {
    if epoch.None? then Ascii("None") else Decimal(epoch.value)
  }

  function CheckpointKind(c: Checkpoint): Kind {
    if c.commit.None? then CheckpointV1Kind else CheckpointV2Kind
  }

  function CheckpointFields(c: Checkpoint): seq<Text> {
    [Decimal(c.seqNo), c.entryHash, c.root] + if c.commit.None? then [] else [EpochText(c.epoch), c.commit.value]
  }

  lemma EpochTextInjective(e: Option<nat>, f: Option<nat>)
    ensures EpochText(e) == EpochText(f) <==> e == f
  {
    assert Ascii("None")[0] == 78;
    if e.Some? {
      DecimalRoundTrip(e.value);
    }
    if f.Some? {
      DecimalRoundTrip(f.value);
    }
  }

  // Exactly what a checkpoint frame binds: everything, except that an epoch without a commitment is not
  // written at all.
  lemma CheckpointFrameBinds(c: Checkpoint, d: Checkpoint)
    requires Fits(CheckpointKind(c), CheckpointFields(c)) && Fits(CheckpointKind(d), CheckpointFields(d))
    ensures Frame(CheckpointKind(c), CheckpointFields(c)) == Frame(CheckpointKind(d), CheckpointFields(d))
            <==> c == d || (c.commit.None? && c == d.(epoch := c.epoch))
  {
    hide Frame, Decimal, EpochText;
    var fc, fd := CheckpointFields(c), CheckpointFields(d);
    FrameInjective(CheckpointKind(c), fc, CheckpointKind(d), fd);
    DecimalRoundTrip(c.seqNo);
    DecimalRoundTrip(d.seqNo);
    EpochTextInjective(c.epoch, d.epoch);
    if fc == fd {
      assert fc[0] == fd[0] && fc[1] == fd[1] && fc[2] == fd[2];
      if c.commit.Some? && d.commit.Some? {
        assert fc[3] == fd[3] && fc[4] == fd[4];
      }
    }
  }

  lemma CheckpointParses(c: Checkpoint)
    requires Fits(CheckpointKind(c), CheckpointFields(c))
    ensures ParseFrame(Frame(CheckpointKind(c), CheckpointFields(c))) ==
            if c.commit.None? then Some((CheckpointV1Kind, [Decimal(c.seqNo), c.entryHash, c.root]))
            else Some((CheckpointV2Kind, [Decimal(c.seqNo), c.entryHash, c.root,
                                          if c.epoch.Some? then Decimal(c.epoch.value) else Ascii("None"), c.commit.value]))
  {
    hide ParseFrame, Frame;
    FrameRoundTrip(CheckpointKind(c), CheckpointFields(c));
    var first := [Decimal(c.seqNo), c.entryHash, c.root];
    if c.commit.None? {
      assert CheckpointFields(c) == first + [] == first;
    } else {
      var epoch := if c.epoch.Some? then Decimal(c.epoch.value) else Ascii("None");
      assert epoch == EpochText(c.epoch);
      assert first + [epoch, c.commit.value] == [Decimal(c.seqNo), c.entryHash, c.root, epoch, c.commit.value];
    }
  }

  lemma AggregateCommitBinds(e: nat, agg: Text, e': nat, agg': Text)
    requires Fits(AggCommitKind, [Decimal(e), agg]) && Fits(AggCommitKind, [Decimal(e'), agg'])
    ensures Frame(AggCommitKind, [Decimal(e), agg]) == Frame(AggCommitKind, [Decimal(e'), agg']) <==> e == e' && agg == agg'
  {
    FrameInjective(AggCommitKind, [Decimal(e), agg], AggCommitKind, [Decimal(e'), agg']);
    DecimalRoundTrip(e);
    DecimalRoundTrip(e');
    if [Decimal(e), agg] == [Decimal(e'), agg'] {
      assert [Decimal(e), agg][0] == [Decimal(e'), agg'][0] && [Decimal(e), agg][1] == [Decimal(e'), agg'][1];
    }
  }
}
