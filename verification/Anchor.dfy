/** The anchor commitment payload, built by anchor_sth.py with struct packing and by
    anchor.js with a byte loop and a concatenation buffer. */
module AnchorCommitment {
  import opened Hashing

  const U64: nat := 0x1_0000_0000_0000_0000

  /** Big-endian bytes, from the last one up. */
  function BigEndian(n: int, width: nat): (bytes: seq<Byte>)
    ensures |bytes| == width
    decreases width
  {
    if width == 0 then [] else BigEndian(n / 256, width - 1) + [n % 256]
  }

  function Value(bytes: seq<Byte>): (v: nat) {
    if bytes == [] then 0 else 256 * Value(bytes[..|bytes| - 1]) + bytes[|bytes| - 1]
  }

  function Pow256(width: nat): (p: nat)
    ensures p >= 1
  {
    if width == 0 then 1 else 256 * Pow256(width - 1)
  }

  lemma DivSmaller(n: int, p: nat)
    requires p >= 1
    ensures 0 <= n < 256 * p <==> 0 <= n / 256 < p
  {
  }

  /** The bytes of a number that fits read back as that number. */
  lemma {:induction false} BytesReadBack(n: int, width: nat)
    requires 0 <= n < Pow256(width)
    ensures Value(BigEndian(n, width)) == n
  {
    if width == 0 {
    } else {
      DivSmaller(n, Pow256(width - 1));
      BytesReadBack(n / 256, width - 1);
      assert BigEndian(n, width)[..width - 1] == BigEndian(n / 256, width - 1);
    }
  }

  lemma {:induction false} BytesAreTheirValue(bytes: seq<Byte>)
    ensures Value(bytes) < Pow256(|bytes|) && BigEndian(Value(bytes), |bytes|) == bytes
  {
    if bytes == [] {
    } else {
      var n := |bytes| - 1;
      BytesAreTheirValue(bytes[..n]);
      LastByte(Value(bytes[..n]), bytes[n]);
      DivSmaller(Value(bytes), Pow256(n));
      assert bytes == bytes[..n] + [bytes[n]];
    }
  }

  lemma LastByte(q: int, r: Byte)
    ensures (256 * q + r) / 256 == q && (256 * q + r) % 256 == r
  {
  }

  /** struct.pack(">Q", n), by what it promises: eight bytes worth n, most significant
      first, or an error. */
  ghost predicate IsPacked(n: int, packed: Option<seq<Byte>>) {
    match packed
    case Some(b) => |b| == 8 && Value(b) == n
    case None => forall b: seq<Byte> | |b| == 8 :: Value(b) != n
  }

  /** The packing exists and is unique: an error outside 64 bits, and inside exactly the
      bytes the byte loop writes. */
  lemma PackedIffBigEndian(n: int, packed: Option<seq<Byte>>)
    ensures IsPacked(n, packed) <==> packed == if 0 <= n < U64 then Some(BigEndian(n, 8)) else None
  {
    hide Value, Pow256;
    Pow256Is64Bits();
    if 0 <= n < U64 {
      BytesReadBack(n, 8);
    }
    forall b: seq<Byte> | |b| == 8
      ensures 0 <= Value(b) < U64 && BigEndian(Value(b), 8) == b
    {
      BytesAreTheirValue(b);
    }
  }

  /** u64be: fills the eight bytes from the end while shifting. */
  method U64be(n: int) returns (a: array<Byte>)
    ensures fresh(a) && a[..] == BigEndian(n, 8)
  {
    a := new Byte[8](_ => 0);
    var b := n;
    var i := 8;
    while i > 0
      invariant 0 <= i <= 8
      invariant BigEndian(b, i) + a[i..] == BigEndian(n, 8)
    {
      i := i - 1;
      ghost var tail := a[i + 1..];
      a[i] := b % 256;
      assert a[i..] == [b % 256] + tail;
      b := b / 256;
    }
  }

  function Flatten(parts: seq<seq<Byte>>): seq<Byte> {
    if parts == [] then [] else Flatten(parts[..|parts| - 1]) + parts[|parts| - 1]
  }

  /** TypedArray.set at an offset. */
  method SetAt(o: array<Byte>, part: seq<Byte>, k: nat)
    requires k + |part| <= o.Length
    modifies o
    ensures o[..k] == old(o[..k]) && o[k..k + |part|] == part
  {
    for j := 0 to |part|
      invariant o[..k] == old(o[..k])
      invariant o[k..k + j] == part[..j]
    {
      o[k + j] := part[j];
      assert o[k..k + j + 1] == o[k..k + j] + [part[j]];
    }
  }

  lemma FlattenNext(parts: seq<seq<Byte>>, i: nat)
    requires i < |parts|
    ensures Flatten(parts[..i + 1]) == Flatten(parts[..i]) + parts[i]
  {
    assert parts[..i + 1][..i] == parts[..i];
  }

  /** The reduction at the start of cat. */
  method TotalLength(parts: seq<seq<Byte>>) returns (n: nat)
    ensures n == |Flatten(parts)|
  {
    n := 0;
    assert parts[..0] == [] && parts[..|parts|] == parts;
    for i := 0 to |parts|
      invariant n == |Flatten(parts[..i])|
    {
      FlattenNext(parts, i);
      n := n + |parts[i]|;
    }
  }

  /** cat: one buffer of the total length, filled at a running offset. */
  method Cat(parts: seq<seq<Byte>>) returns (o: array<Byte>)
    ensures fresh(o) && o[..] == Flatten(parts)
  {
    assert parts[..0] == [] && parts[..|parts|] == parts && Flatten(parts[..0]) == [];
    hide Flatten;
    var n := TotalLength(parts);
    o := new Byte[n](_ => 0);
    var k := 0;
    for i := 0 to |parts|
      invariant k == |Flatten(parts[..i])| <= n
      invariant o[..k] == Flatten(parts[..i])
    {
      FlattenNext(parts, i);
      FlattenGrows(parts, i + 1);
      SetAt(o, parts[i], k);
      assert o[..k + |parts[i]|] == o[..k] + o[k..k + |parts[i]|];
      k := k + |parts[i]|;
    }
    assert o[..n] == o[..];
  }

  lemma {:induction false} FlattenGrows(parts: seq<seq<Byte>>, i: nat)
    requires i <= |parts|
    ensures |Flatten(parts[..i])| <= |Flatten(parts)|
    decreases |parts|
  {
    if i < |parts| {
      FlattenGrows(parts[..|parts| - 1], i);
      assert parts[..|parts| - 1][..i] == parts[..i];
    } else {
      assert parts[..i] == parts;
    }
  }

  // ----- the payload -----

  /** The signed fields, with the log name already encoded in UTF-8. */
  datatype Sth = Sth(log: seq<Byte>, treeSize: int, root: seq<Byte>, timestamp: int)

  predicate InRange(s: Sth) {
    0 <= s.treeSize < U64 && 0 <= s.timestamp < U64
  }

  /** domain NUL log NUL tree_size root timestamp, as one concatenation. */
  function Payload(domain: seq<Byte>, s: Sth): seq<Byte> {
    domain + [0] + s.log + [0] + BigEndian(s.treeSize, 8) + s.root + BigEndian(s.timestamp, 8)
  }

  /** anchor_commitment up to the hash, over any packing that keeps struct.pack's promise. */
  ghost predicate IsPyPayload(domain: seq<Byte>, s: Sth, payload: Option<seq<Byte>>) {
    exists size, ts :: IsPacked(s.treeSize, size) && IsPacked(s.timestamp, ts)
      && payload == if size.Some? && ts.Some?
                    then Some(domain + [0] + s.log + [0] + size.value + s.root + ts.value)
                    else None
  }

  /** commitment of anchor.js up to the hash. */
  method JsPayload(domain: seq<Byte>, s: Sth) returns (o: array<Byte>)
    ensures fresh(o) && o[..] == Payload(domain, s)
  {
    var size := U64be(s.treeSize);
    var ts := U64be(s.timestamp);
    var parts := [domain, [0], s.log, [0], size[..], s.root, ts[..]];
    o := Cat(parts);
    FlattenSeven(domain, [0], s.log, size[..], s.root, ts[..]);
  }

  lemma FlattenSnoc(parts: seq<seq<Byte>>, last: seq<Byte>)
    ensures Flatten(parts + [last]) == Flatten(parts) + last
  {
    assert (parts + [last])[..|parts|] == parts;
  }

  lemma FlattenOne(a: seq<Byte>)
    ensures Flatten([a]) == a
  {
    assert [a][..0] == [];
  }

  lemma FlattenSeven(a: seq<Byte>, z: seq<Byte>, b: seq<Byte>, c: seq<Byte>, d: seq<Byte>, e: seq<Byte>)
    ensures Flatten([a, z, b, z, c, d, e]) == a + z + b + z + c + d + e
  {
    hide Flatten;
    FlattenOne(a);
    FlattenSnoc([a], z);
    FlattenSnoc([a, z], b);
    FlattenSnoc([a, z, b], z);
    FlattenSnoc([a, z, b, z], c);
    FlattenSnoc([a, z, b, z, c], d);
    FlattenSnoc([a, z, b, z, c, d], e);
    assert [a] + [z] == [a, z] && [a, z] + [b] == [a, z, b] && [a, z, b] + [z] == [a, z, b, z];
    assert [a, z, b, z] + [c] == [a, z, b, z, c] && [a, z, b, z, c] + [d] == [a, z, b, z, c, d];
    assert [a, z, b, z, c, d] + [e] == [a, z, b, z, c, d, e];
  }

  /** The two implementations agree exactly on the values struct packing accepts: there
      the Python payload is the one JsPayload builds, elsewhere it is an error. */
  lemma ImplementationsAgree(domain: seq<Byte>, s: Sth, payload: Option<seq<Byte>>)
    ensures IsPyPayload(domain, s, payload) <==> payload == if InRange(s) then Some(Payload(domain, s)) else None
  {
    hide IsPacked, BigEndian;
    var size := if 0 <= s.treeSize < U64 then Some(BigEndian(s.treeSize, 8)) else None;
    var ts := if 0 <= s.timestamp < U64 then Some(BigEndian(s.timestamp, 8)) else None;
    forall p
      ensures IsPacked(s.treeSize, p) <==> p == size
      ensures IsPacked(s.timestamp, p) <==> p == ts
    {
      PackedIffBigEndian(s.treeSize, p);
      PackedIffBigEndian(s.timestamp, p);
    }
    assert InRange(s) <==> size.Some? && ts.Some?;
    assert IsPacked(s.treeSize, size) && IsPacked(s.timestamp, ts);
  }

  lemma ModDown(n: int, p: nat)
    requires p >= 1
    ensures n % (256 * p) == 256 * (n / 256 % p) + n % 256
    ensures n % (256 * p) / 256 == n / 256 % p && n % (256 * p) % 256 == n % 256
  {
    var q, r := n / 256, n % 256;
    var s, t := q / p, q % p;
    assert n == 256 * p * s + (256 * t + r) by {
      assert q == p * s + t;
    }
    ModUnique(n, 256 * p, s, 256 * t + r);
  }

  lemma ModUnique(n: int, m: nat, s: int, r: int)
    requires 0 <= r < m && n == m * s + r
    ensures n % m == r
  {
    var d := n / m - s;
    assert m * d == r - n % m;
  }

  /** The byte loop keeps the last 64 bits of any integer, where struct packing raises. */
  lemma {:induction false} BytesWrap(n: int, width: nat)
    ensures BigEndian(n, width) == BigEndian(n % Pow256(width), width)
    decreases width
  {
    if width == 0 {
    } else {
      ModDown(n, Pow256(width - 1));
      BytesWrap(n / 256, width - 1);
    }
  }

  /** Eight bytes tell two integers apart exactly up to multiples of 2^64. */
  lemma SameBytesIffCongruent(a: int, b: int)
    ensures BigEndian(a, 8) == BigEndian(b, 8) <==> a % U64 == b % U64
  {
    Pow256Is64Bits();
    BytesWrap(a, 8);
    BytesWrap(b, 8);
    BytesReadBack(a % U64, 8);
    BytesReadBack(b % U64, 8);
  }

  lemma Pow256Is64Bits()
    ensures Pow256(8) == U64
  {
    assert Pow256(4) == 0x1_0000_0000;
  }

  lemma SameBytesSameNumber(a: int, b: int)
    requires 0 <= a < U64 && 0 <= b < U64 && BigEndian(a, 8) == BigEndian(b, 8)
    ensures a == b
  {
    hide BigEndian;
    SameBytesIffCongruent(a, b);
  }

  lemma Halve<X>(a: seq<X>, b: seq<X>, c: seq<X>, d: seq<X>)
    requires a + b == c + d && |a| == |c|
    ensures a == c && b == d
  {
    assert a == (a + b)[..|a|] && c == (c + d)[..|c|];
    assert b == (a + b)[|a|..] && d == (c + d)[|c|..];
  }

  /** With names of one length the fields are where they seem to be. */
  lemma SameNameLength(domain: seq<Byte>, s: Sth, t: Sth)
    requires InRange(s) && InRange(t)
    requires |s.log| == |t.log| && Payload(domain, s) == Payload(domain, t)
    ensures s == t
  {
    var sSize, tSize := BigEndian(s.treeSize, 8), BigEndian(t.treeSize, 8);
    var sTs, tTs := BigEndian(s.timestamp, 8), BigEndian(t.timestamp, 8);
    assert |Payload(domain, s)| == |Payload(domain, t)|;
    Halve(domain + [0] + s.log + [0] + sSize + s.root, sTs, domain + [0] + t.log + [0] + tSize + t.root, tTs);
    Halve(domain + [0] + s.log + [0] + sSize, s.root, domain + [0] + t.log + [0] + tSize, t.root);
    Halve(domain + [0] + s.log + [0], sSize, domain + [0] + t.log + [0], tSize);
    Halve(domain + [0] + s.log, [0], domain + [0] + t.log, [0]);
    Halve(domain + [0], s.log, domain + [0], t.log);
    SameBytesSameNumber(s.treeSize, t.treeSize);
    SameBytesSameNumber(s.timestamp, t.timestamp);
  }

  // ----- which heads share a payload -----

  /** The payload between the domain's separator and the timestamp. */
  function Middle(s: Sth): seq<Byte> {
    s.log + [0] + BigEndian(s.treeSize, 8) + s.root
  }

  lemma PayloadParts(domain: seq<Byte>, s: Sth)
    ensures Payload(domain, s) == domain + [0] + Middle(s) + BigEndian(s.timestamp, 8)
  {
  }

  /** Reading bytes as a tree head whose name ends at position j. */
  function ReadAt(w: seq<Byte>, j: nat, timestamp: int): Sth
    requires j + 9 <= |w|
  {
    Sth(w[..j], Value(w[j + 1..j + 9]), w[j + 9..], timestamp)
  }

  /** Every NUL with at least eight bytes after it ends the name of some head. */
  lemma ReadAtFits(domain: seq<Byte>, s: Sth, j: nat)
    requires InRange(s) && j + 9 <= |Middle(s)| && Middle(s)[j] == 0
    ensures var t := ReadAt(Middle(s), j, s.timestamp);
            InRange(t) && Payload(domain, t) == Payload(domain, s)
  {
    hide BigEndian, Value, Pow256;
    var w := Middle(s);
    var t := ReadAt(w, j, s.timestamp);
    Pow256Is64Bits();
    BytesAreTheirValue(w[j + 1..j + 9]);
    assert Middle(t) == w[..j] + [w[j]] + w[j + 1..j + 9] + w[j + 9..] == w;
    PayloadParts(domain, s);
    PayloadParts(domain, t);
  }

  /** The name of any head with this payload ends at such a NUL. */
  lemma NameEndsAtNul(domain: seq<Byte>, s: Sth, t: Sth)
    requires Payload(domain, t) == Payload(domain, s)
    ensures |t.log| + 9 <= |Middle(s)| && Middle(s)[|t.log|] == 0 && Middle(s)[..|t.log|] == t.log
    ensures |t.log| < |s.log| ==> 0 in s.log
  {
    hide BigEndian;
    PayloadParts(domain, s);
    PayloadParts(domain, t);
    Halve(domain + [0] + Middle(t), BigEndian(t.timestamp, 8), domain + [0] + Middle(s), BigEndian(s.timestamp, 8));
    Halve(domain + [0], Middle(t), domain + [0], Middle(s));
    if |t.log| < |s.log| {
      assert s.log[|t.log|] == Middle(s)[|t.log|] == 0;
    }
  }

  /** Where else a name could end. */
  lemma OtherNuls(s: Sth)
    ensures (exists j: nat :: j != |s.log| && j + 9 <= |Middle(s)| && Middle(s)[j] == 0)
            <==> 0 in s.log || 0 in (BigEndian(s.treeSize, 8) + s.root)[..|s.root|]
  {
    hide BigEndian;
    var w, tail := Middle(s), BigEndian(s.treeSize, 8) + s.root;
    assert w == s.log + [0] + tail;
    if j: nat :| j != |s.log| && j + 9 <= |w| && w[j] == 0 {
      if j < |s.log| {
        assert s.log[j] == 0;
      } else {
        assert tail[..|s.root|][j - |s.log| - 1] == 0;
      }
    }
    if 0 in s.log {
      var j :| 0 <= j < |s.log| && s.log[j] == 0;
      assert w[j] == 0;
    }
    if 0 in tail[..|s.root|] {
      var k :| 0 <= k < |s.root| && tail[..|s.root|][k] == 0;
      assert w[|s.log| + 1 + k] == 0;
    }
  }

  /** Whatever byte strings count as names, say the encodings of text: another head with a
      proper name shares the payload if and only if a proper name ends at some other NUL. */
  lemma AmbiguousIffOtherName(domain: seq<Byte>, s: Sth, isName: seq<Byte> -> bool)
    requires InRange(s)
    ensures (exists t :: InRange(t) && isName(t.log) && t != s && Payload(domain, t) == Payload(domain, s))
            <==> exists j: nat :: j != |s.log| && j + 9 <= |Middle(s)| && Middle(s)[j] == 0 && isName(Middle(s)[..j])
  {
    hide BigEndian, Payload, Middle;
    if t :| InRange(t) && isName(t.log) && t != s && Payload(domain, t) == Payload(domain, s) {
      NameEndsAtNul(domain, s, t);
      if |t.log| == |s.log| {
        SameNameLength(domain, s, t);
      }
    }
    if j: nat :| j != |s.log| && j + 9 <= |Middle(s)| && Middle(s)[j] == 0 && isName(Middle(s)[..j]) {
      ReadAtFits(domain, s, j);
      assert |ReadAt(Middle(s), j, s.timestamp).log| == j;
    }
  }

  /** The ambiguous tree heads, exactly: another head shares the payload if and only if
      there is a NUL in the name, or one among the first |root| bytes after its separator. */
  lemma AmbiguousIffNul(domain: seq<Byte>, s: Sth)
    requires InRange(s)
    ensures (exists t :: InRange(t) && t != s && Payload(domain, t) == Payload(domain, s))
            <==> 0 in s.log || 0 in (BigEndian(s.treeSize, 8) + s.root)[..|s.root|]
  {
    hide BigEndian, Payload, Middle;
    OtherNuls(s);
    AmbiguousIffOtherName(domain, s, _ => true);
  }

  /** Fixed-size roots, or NUL-free names, keep heads apart. */
  lemma PayloadBindsHead(domain: seq<Byte>, s: Sth, t: Sth)
    requires InRange(s) && InRange(t)
    requires |s.root| == |t.root| || (0 !in s.log && 0 !in t.log)
    ensures Payload(domain, s) == Payload(domain, t) <==> s == t
  {
    hide BigEndian;
    if Payload(domain, s) == Payload(domain, t) {
      NamesHaveOneLength(domain, s, t);
      SameNameLength(domain, s, t);
    }
  }

  lemma NamesHaveOneLength(domain: seq<Byte>, s: Sth, t: Sth)
    requires |s.root| == |t.root| || (0 !in s.log && 0 !in t.log)
    requires Payload(domain, s) == Payload(domain, t)
    ensures |s.log| == |t.log|
  {
    hide BigEndian;
    assert |Payload(domain, s)| == |Payload(domain, t)|;
    NameEndsAtNul(domain, s, t);
    NameEndsAtNul(domain, t, s);
  }

  /** The plainest such pair: a NUL ending a name passes for the separator, and the bytes
      behind it shift by one into a longer root. */
  lemma NulInNameIsAmbiguous(domain: seq<Byte>)
    ensures var s := Sth([], 0, [0], 0);
            var t := Sth([0], 0, [], 0);
            s != t && InRange(s) && InRange(t) && Payload(domain, s) == Payload(domain, t)
  {
    var s := Sth([], 0, [0], 0);
    ZeroBytes(8);
    assert ReadAt(Middle(s), 1, 0) == Sth([0], 0, [], 0) by {
      assert Middle(s) == seq(10, _ => 0);
      assert Middle(s)[2..10] == BigEndian(0, 8);
      BytesReadBack(0, 8);
    }
    ReadAtFits(domain, s, 1);
  }

  lemma {:induction false} ZeroBytes(width: nat)
    ensures BigEndian(0, width) == seq(width, _ => 0)
  {
    if width == 0 {
    } else {
      ZeroBytes(width - 1);
    }
  }

  /** A head a log does publish, NUL-free name and all, that shares its payload with
      another: the first byte of a small size is a NUL. */
  lemma SmallSizesAreAmbiguous(domain: seq<Byte>, s: Sth)
    requires InRange(s) && s.treeSize < 0x100_0000_0000_0000 && s.root != []
    ensures exists t :: InRange(t) && t != s && Payload(domain, t) == Payload(domain, s)
  {
    hide Payload;
    AmbiguousIffNul(domain, s);
    var size := BigEndian(s.treeSize, 8);
    assert Pow256(4) == 0x1_0000_0000;
    FirstByte(s.treeSize, 8);
    assert (size + s.root)[..|s.root|][0] == 0;
  }

  lemma {:induction false} FirstByte(n: int, width: nat)
    requires width > 0 && 0 <= n < Pow256(width - 1)
    ensures BigEndian(n, width)[0] == 0
  {
    if width > 1 {
      DivSmaller(n, Pow256(width - 2));
      FirstByte(n / 256, width - 1);
    } else {
      assert n == 0;
    }
  }
}
