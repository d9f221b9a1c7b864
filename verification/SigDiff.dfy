/** Falcon-1024 signature inspection and comparison, in index.js and falcon_interop.py. */
module SignatureDiff {
  import opened Hashing
  import opened ConsistencyProof
  import opened AnchorCommitment

  const LOGN_1024 := 10
  const SALT_LEN := 40
  const DET_FLAG := 0x80
  const FORMAT_MASK := 0x70
  const FMT_COMPRESSED := 0x30
  const FMT_PADDED := 0x50
  const LOGN_MASK := 0x0F

  datatype Format = Compressed | Padded | UnknownFormat(bits: int)

  datatype SigInfo = SigInfo(
    totalLen: nat, header: Byte, logn: int, deterministic: bool, fmt: Format, saltPresent: bool, bodyLen: int)

  /** inspectFalconSig and inspect; None for the empty signature, which both reject. */
  function Inspect(sig: seq<Byte>): Option<SigInfo> {
    if sig == [] then None
    else
      var head := sig[0];
      var deterministic := BitAnd(head, DET_FLAG) != 0;
      var bits := BitAnd(head, FORMAT_MASK);
      var fmt := if bits == FMT_COMPRESSED then Compressed else if bits == FMT_PADDED then Padded else UnknownFormat(bits);
      var saltPresent := fmt.Compressed? && !deterministic;
      Some(SigInfo(|sig|, head, BitAnd(head, LOGN_MASK), deterministic, fmt, saltPresent,
                   |sig| - (1 + if saltPresent then SALT_LEN else 0)))
  }

  lemma MaskEven(a: nat, b: nat)
    ensures BitAnd(a, 2 * b) == 2 * BitAnd(a / 2, b)
  {
    assert 2 * b / 2 == b && 2 * b % 2 == 0;
  }

  lemma MaskOdd(a: nat, b: nat)
    ensures BitAnd(a, 2 * b + 1) == 2 * BitAnd(a / 2, b) + a % 2
  {
    assert (2 * b + 1) / 2 == b;
  }

  lemma LowBit(a: nat)
    ensures BitAnd(a, 1) == a % 2
  {
    MaskOdd(a, 0);
  }

  lemma LowTwo(a: nat)
    ensures BitAnd(a, 3) == a % 4
  {
    hide BitAnd;
    MaskOdd(a, 1);
    LowBit(a / 2);
    var q, m := a / 4, a % 4;
    assert a == 4 * q + m;
    assert a / 2 == 2 * q + m / 2 && a % 2 == m % 2;
  }

  lemma LowThree(a: nat)
    ensures BitAnd(a, 7) == a % 8
  {
    hide BitAnd;
    MaskOdd(a, 3);
    LowTwo(a / 2);
    var q, m := a / 8, a % 8;
    assert a == 8 * q + m;
    assert a / 2 == 4 * q + m / 2 && a % 2 == m % 2;
  }

  lemma LowFour(a: nat)
    ensures BitAnd(a, 15) == a % 16
  {
    hide BitAnd;
    MaskOdd(a, 7);
    LowThree(a / 2);
    var q, m := a / 16, a % 16;
    assert a == 16 * q + m;
    assert a / 2 == 8 * q + m / 2 && a % 2 == m % 2;
  }

  /** The three masks of the header byte, as arithmetic. */
  lemma HeaderMasks(head: Byte)
    ensures BitAnd(head, LOGN_MASK) == head % 16
    ensures BitAnd(head, FORMAT_MASK) == 16 * (head / 16 % 8)
    ensures BitAnd(head, DET_FLAG) == 128 * (head / 128)
  {
    LowFour(head);
    FormatBits(head);
    TopBit(head);
  }

  lemma FormatBits(head: nat)
    ensures BitAnd(head, FORMAT_MASK) == 16 * (head / 16 % 8)
  {
    hide BitAnd;
    var a, b, c: nat := head / 2, head / 4, head / 8;
    assert a / 2 == b && b / 2 == c && c / 2 == head / 16;
    MaskEven(head, 0x38);
    MaskEven(a, 0x1C);
    MaskEven(b, 0x0E);
    MaskEven(c, 0x07);
    LowThree(head / 16);
  }

  lemma TopBit(head: nat)
    requires head < 256
    ensures BitAnd(head, DET_FLAG) == 128 * (head / 128)
  {
    hide BitAnd;
    var a, b, c, d, e, f: nat := head / 2, head / 4, head / 8, head / 16, head / 32, head / 64;
    assert a / 2 == b && b / 2 == c && c / 2 == d && d / 2 == e && e / 2 == f && f / 2 == head / 128;
    MaskEven(head, 0x40);
    MaskEven(a, 0x20);
    MaskEven(b, 0x10);
    MaskEven(c, 0x08);
    MaskEven(d, 0x04);
    MaskEven(e, 0x02);
    MaskEven(f, 0x01);
    LowBit(head / 128);
  }

  /** A 40-byte salt is presumed for exactly the headers 0x30..0x3F; of the two documented
      headers 0x3A therefore carries one and its deterministic wrapper 0xBA none. */
  lemma SaltedHeaders(sig: seq<Byte>)
    requires sig != []
    ensures var info := Inspect(sig).value;
            (info.saltPresent <==> 0x30 <= sig[0] <= 0x3F)
            && (info.deterministic <==> sig[0] >= 0x80)
            && (sig[0] == 0x3A || sig[0] == 0xBA ==> info.logn == LOGN_1024 && info.fmt == Compressed)
            && (sig[0] == 0x3A ==> info.bodyLen == |sig| - 41)
            && (sig[0] == 0xBA ==> info.bodyLen == |sig| - 1)
  {
    hide BitAnd;
    HeaderMasks(sig[0]);
  }

  /** The whole report, from the header byte as a number: the low four bits, the next three,
      and the top one. Only the compressed format without the top bit is presumed salted. */
  lemma InspectReads(sig: seq<Byte>, info: SigInfo)
    requires sig != []
    ensures Inspect(sig) == Some(info)
            <==> info.totalLen == |sig| && info.header == sig[0] && info.logn == sig[0] % 16
                 && info.deterministic == (sig[0] >= 128)
                 && info.fmt == (match sig[0] / 16 % 8
                                 case 3 => Compressed
                                 case 5 => Padded
                                 case other => UnknownFormat(16 * other))
                 && info.saltPresent == (sig[0] / 16 == 3)
                 && info.bodyLen == if sig[0] / 16 == 3 then |sig| - 41 else |sig| - 1
  {
    hide BitAnd;
    HeaderMasks(sig[0]);
  }

  datatype Region = Length | Header | Salt | Body

  datatype Diff = Diff(identical: bool, lenA: nat, lenB: nat, first: Option<nat>, region: Option<Region>)

  /** The first offset, within both, at which two byte strings differ. */
  ghost predicate IsFirstDiff(a: seq<Byte>, b: seq<Byte>, first: Option<nat>) {
    match first
    case None => a <= b || b <= a
    case Some(i) => i < |a| && i < |b| && a[i] != b[i] && a[..i] == b[..i]
  }

  /** What a comparison should report, without reference to either argument's order: the
      salt region is that of the header the two signatures share. */
  ghost predicate Describes(d: Diff, a: seq<Byte>, b: seq<Byte>) {
    d.lenA == |a| && d.lenB == |b|
    && d.identical == (a == b)
    && IsFirstDiff(a, b, d.first)
    && (d.region == None <==> a == b)
    && (d.region == Some(Length) <==> a != b && (a <= b || b <= a))
    && (d.region == Some(Header) <==> a != [] && b != [] && a[0] != b[0])
    && (d.region == Some(Salt) <==>
          d.first.Some? && 1 <= d.first.value <= SALT_LEN
          && 0x30 <= a[0] <= 0x3F && 0x30 <= b[0] <= 0x3F)
  }

  /** compareSigs and compare; both throw on an empty signature. */
  method Compare(a: seq<Byte>, b: seq<Byte>) returns (r: Option<Diff>)
    ensures r.None? <==> a == [] || b == []
    ensures r.Some? ==> Describes(r.value, a, b)
    ensures r.Some? ==> (r.value.identical <==> a == b) && r.value.lenA == |a| && r.value.lenB == |b|
  {
    hide BitAnd;
    var ia, ib := Inspect(a), Inspect(b);
    if ia.None? || ib.None? {
      return None;
    }
    SaltedHeaders(a);
    var n := if |a| < |b| then |a| else |b|;
    var first: Option<nat> := None;
    for i := 0 to n
      invariant a[..i] == b[..i]
    {
      if a[i] != b[i] {
        first := Some(i);
        break;
      }
    }
    var region :=
      if first.None? then (if |a| == |b| then None else Some(Length))
      else if first.value == 0 then Some(Header)
      else if ia.value.saltPresent && 1 <= first.value < 1 + SALT_LEN then Some(Salt)
      else Some(Body);
    var identical := first.None? && |a| == |b|;
    if first.None? {
      assert a[..n] == b[..n];
      assert if |a| <= |b| then a[..n] == a && a <= b else b[..n] == b && b <= a;
    } else if first.value > 0 {
      assert a[0] == a[..first.value][0] == b[..first.value][0];
    }
    r := Some(Diff(identical, |a|, |b|, first, region));
  }

  lemma FirstDiffUnique(a: seq<Byte>, b: seq<Byte>, x: Option<nat>, y: Option<nat>)
    requires IsFirstDiff(a, b, x) && IsFirstDiff(a, b, y)
    ensures x == y
  {
  }

  /** The report is the same with the arguments exchanged, lengths aside, although the
      code reads only the first one's salt flag. */
  lemma ComparisonIsSymmetric(a: seq<Byte>, b: seq<Byte>, d: Diff, e: Diff)
    requires a != [] && b != []
    requires Describes(d, a, b) && Describes(e, b, a)
    ensures d.identical == e.identical && d.first == e.first && d.region == e.region
    ensures d.lenA == e.lenB && d.lenB == e.lenA
  {
    if e.first.Some? {
      assert IsFirstDiff(a, b, e.first);
    }
    FirstDiffUnique(a, b, d.first, e.first);
    SameRegion(d.region, e.region);
  }

  lemma SameRegion(x: Option<Region>, y: Option<Region>)
    requires x == None <==> y == None
    requires x == Some(Length) <==> y == Some(Length)
    requires x == Some(Header) <==> y == Some(Header)
    requires x == Some(Salt) <==> y == Some(Salt)
    ensures x == y
  {
    assert x.Some? ==> x.value.Length? || x.value.Header? || x.value.Salt? || x.value.Body?;
    assert y.Some? ==> y.value.Length? || y.value.Header? || y.value.Salt? || y.value.Body?;
  }

  /** The regions are those of the layout: one header byte, the salt if there is one, and
      as many body bytes as the inspection counts. */
  lemma RegionsFollowLayout(a: seq<Byte>, b: seq<Byte>, d: Diff)
    requires a != [] && b != [] && Describes(d, a, b)
    ensures d.first.Some? ==>
              var bodyStart := |a| - Inspect(a).value.bodyLen;
              (d.region == Some(Header) <==> d.first.value == 0)
              && (d.region == Some(Salt) <==> 1 <= d.first.value < bodyStart)
              && (d.region == Some(Body) <==> 1 <= d.first.value && bodyStart <= d.first.value)
  {
    hide BitAnd;
    InspectReads(a, Inspect(a).value);
    if d.first.Some? {
      var i := d.first.value;
      assert !(a <= b) && !(b <= a) by { assert a[i] != b[i]; }
      assert i > 0 ==> a[0] == a[..i][0] == b[..i][0] == b[0];
      assert d.region.value.Length? || d.region.value.Header? || d.region.value.Salt? || d.region.value.Body?;
    }
  }

  // ----- the ABI length prefix -----

  function AbiEncode(x: seq<Byte>): seq<Byte>
    requires |x| < 0x1_0000
  {
    [|x| / 256, |x| % 256] + x
  }

  /** abiDecodeBytes: strips the two-byte length when it matches what follows. */
  function AbiDecode(b: seq<Byte>): seq<Byte> {
    if |b| >= 2 && b[0] as int * 256 + b[1] as int == |b| - 2 then b[2..] else b
  }

  lemma TwoBytes(n: nat)
    requires n < 0x1_0000
    ensures BigEndian(n, 2) == [n / 256, n % 256]
  {
    assert BigEndian(n / 256, 1) == BigEndian(n / 256 / 256, 0) + [n / 256];
    assert BigEndian(n, 2) == BigEndian(n / 256, 1) + [n % 256];
  }

  /** The prefix is the length in two bytes, most significant first. */
  lemma AbiPrefixIsBigEndian(x: seq<Byte>)
    requires |x| < 0x1_0000
    ensures AbiEncode(x) == BigEndian(|x|, 2) + x
  {
    hide BigEndian;
    TwoBytes(|x|);
  }

  lemma AbiDecodesEncoding(x: seq<Byte>)
    requires |x| < 0x1_0000
    ensures AbiDecode(AbiEncode(x)) == x
  {
    assert AbiEncode(x)[2..] == x;
  }

  /** Encoded values decode to themselves, and a value is changed by decoding exactly when
      it is an encoding of something. */
  lemma {:induction false} AbiDecodeIffEncoded(x: seq<Byte>)
    ensures AbiDecode(x) != x <==> exists y: seq<Byte> :: |y| < 0x1_0000 && x == AbiEncode(y)
  {
    if AbiDecode(x) != x {
      var y := x[2..];
      assert x == AbiEncode(y) by {
        assert |y| / 256 == x[0] && |y| % 256 == x[1];
      }
    } else if y: seq<Byte> :| |y| < 0x1_0000 && x == AbiEncode(y) {
      AbiDecodesEncoding(y);
    }
  }
}
