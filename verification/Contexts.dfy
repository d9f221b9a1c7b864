/** The registry scan of context_prefix_free_check.py: over the sorted context strings, a
    string is only compared with the ones after it. Prefix-freeness is what makes signing
    ctx || m by plain concatenation unambiguous. */
module ContextRegistry {

  /** Code-point order on strings. */
  predicate Leq(a: string, b: string) {
    a == [] || (b != [] && (a[0] < b[0] || (a[0] == b[0] && Leq(a[1..], b[1..]))))
  }

  lemma {:induction false} LeqAntisymmetric(a: string, b: string)
    requires Leq(a, b) && Leq(b, a)
    ensures a == b
  {
    if a == [] {
    } else {
      LeqAntisymmetric(a[1..], b[1..]);
      assert a == [a[0]] + a[1..] && b == [b[0]] + b[1..];
    }
  }

  lemma {:induction false} PrefixIsLeq(a: string, b: string)
    requires a <= b
    ensures Leq(a, b)
  {
    if a == [] {
    } else {
      PrefixIsLeq(a[1..], b[1..]);
    }
  }

  /** sorted(reg), for the distinct keys of a dictionary. */
  ghost predicate SortedKeys(ctxs: seq<string>) {
    forall i, j :: 0 <= i < j < |ctxs| ==> Leq(ctxs[i], ctxs[j]) && ctxs[i] != ctxs[j]
  }

  predicate Extends(a: string, b: string) {
    a <= b && a != b
  }

  /** The reported pairs, in the order of the scan. */
  function Row(a: string, later: seq<string>): seq<(string, string)> {
    if later == [] then []
    else (if Extends(a, later[0]) then [(a, later[0])] else []) + Row(a, later[1..])
  }

  function Pairs(ctxs: seq<string>): seq<(string, string)> {
    if ctxs == [] then [] else Row(ctxs[0], ctxs[1..]) + Pairs(ctxs[1..])
  }

  lemma RowStep(a: string, done: seq<(string, string)>, ctxs: seq<string>, j: nat)
    requires j < |ctxs|
    ensures done + Row(a, ctxs[j..])
            == (if Extends(a, ctxs[j]) then done + [(a, ctxs[j])] else done) + Row(a, ctxs[j + 1..])
  {
    assert ctxs[j..][1..] == ctxs[j + 1..];
  }

  lemma PairsStep(done: seq<(string, string)>, ctxs: seq<string>, i: nat)
    requires i < |ctxs|
    ensures done + Pairs(ctxs[i..]) == (done + Row(ctxs[i], ctxs[i + 1..])) + Pairs(ctxs[i + 1..])
  {
    assert ctxs[i..][1..] == ctxs[i + 1..];
  }

  method Scan(ctxs: seq<string>) returns (violations: seq<(string, string)>)
    ensures violations == Pairs(ctxs)
  {
    violations := [];
    assert ctxs[0..] == ctxs;
    for i := 0 to |ctxs|
      invariant violations + Pairs(ctxs[i..]) == Pairs(ctxs)
    {
      hide Row, Pairs;
      var a := ctxs[i];
      PairsStep(violations, ctxs, i);
      ghost var goal := violations + Row(a, ctxs[i + 1..]);
      for j := i + 1 to |ctxs|
        invariant violations + Row(a, ctxs[j..]) == goal
      {
        var b := ctxs[j];
        RowStep(a, violations, ctxs, j);
        if a <= b && a != b {
          violations := violations + [(a, b)];
        }
      }
      RowEnds(a, violations, ctxs);
    }
    assert ctxs[|ctxs|..] == [];
  }

  lemma RowEnds(a: string, done: seq<(string, string)>, ctxs: seq<string>)
    ensures done + Row(a, ctxs[|ctxs|..]) == done
  {
  }

  lemma {:induction false} RowHolds(a: string, later: seq<string>, p: (string, string))
    ensures p in Row(a, later) <==> p.0 == a && p.1 in later && Extends(a, p.1)
  {
    if later == [] {
    } else {
      RowHolds(a, later[1..], p);
      assert later == [later[0]] + later[1..];
    }
  }

  /** p is reported before q: by the shorter string, then by the longer one. */
  predicate Precedes(p: (string, string), q: (string, string)) {
    (p.0 != q.0 && Leq(p.0, q.0)) || (p.0 == q.0 && p.1 != q.1 && Leq(p.1, q.1))
  }

  ghost predicate Ordered(pairs: seq<(string, string)>) {
    forall k, l :: 0 <= k < l < |pairs| ==> Precedes(pairs[k], pairs[l])
  }

  lemma {:induction false} RowIsOrdered(a: string, later: seq<string>)
    requires SortedKeys(later)
    ensures Ordered(Row(a, later))
  {
    hide Leq;
    if later == [] {
    } else {
      RowIsOrdered(a, later[1..]);
      forall p | p in Row(a, later[1..])
        ensures Precedes((a, later[0]), p)
      {
        RowHolds(a, later[1..], p);
      }
      OrderedJoins(if Extends(a, later[0]) then [(a, later[0])] else [], Row(a, later[1..]));
    }
  }

  lemma OrderedJoins(ps: seq<(string, string)>, qs: seq<(string, string)>)
    requires Ordered(ps) && Ordered(qs)
    requires forall p, q :: p in ps && q in qs ==> Precedes(p, q)
    ensures Ordered(ps + qs)
  {
    hide Precedes;
  }

  lemma {:induction false} PairsHold(ctxs: seq<string>, p: (string, string))
    requires p in Pairs(ctxs)
    ensures p.0 in ctxs
  {
    var row := Row(ctxs[0], ctxs[1..]);
    if p in row {
      RowHolds(ctxs[0], ctxs[1..], p);
    } else {
      PairsHold(ctxs[1..], p);
    }
  }

  /** Each pair is reported once, in the order of the registry. */
  lemma {:induction false} ScanIsOrdered(ctxs: seq<string>)
    requires SortedKeys(ctxs)
    ensures Ordered(Pairs(ctxs))
    ensures forall k, l :: 0 <= k < l < |Pairs(ctxs)| ==> Pairs(ctxs)[k] != Pairs(ctxs)[l]
  {
    hide Leq;
    if ctxs == [] {
    } else {
      var a, later := ctxs[0], ctxs[1..];
      ScanIsOrdered(later);
      RowIsOrdered(a, later);
      forall p, q | p in Row(a, later) && q in Pairs(later)
        ensures Precedes(p, q)
      {
        RowHolds(a, later, p);
        PairsHold(later, q);
      }
      OrderedJoins(Row(a, later), Pairs(later));
    }
  }

  /** Looking only forward misses nothing: in sorted order no string extends a later one. */
  lemma {:induction false} ScanIsComplete(ctxs: seq<string>, p: (string, string))
    requires SortedKeys(ctxs)
    ensures p in Pairs(ctxs) <==> p.0 in ctxs && p.1 in ctxs && Extends(p.0, p.1)
  {
    if ctxs == [] {
    } else {
      var a, later := ctxs[0], ctxs[1..];
      assert ctxs == [a] + later;
      RowHolds(a, later, p);
      ScanIsComplete(later, p);
      if p.1 == a && p.0 in later && Extends(p.0, a) {
        PrefixIsLeq(p.0, a);
        var k :| 0 <= k < |later| && later[k] == p.0;
        assert Leq(ctxs[0], ctxs[k + 1]);
        LeqAntisymmetric(a, p.0);
      }
    }
  }

  ghost predicate PrefixFree(ctxs: seq<string>) {
    forall a, b :: a in ctxs && b in ctxs ==> !Extends(a, b)
  }

  /** Signing ctx || m: no two pairs of a registered context and a message give one string. */
  ghost predicate Unambiguous(ctxs: seq<string>) {
    forall a, m, b, n :: a in ctxs && b in ctxs && a + m == b + n ==> a == b && m == n
  }

  lemma SameBytes(a: string, m: string, b: string, n: string)
    requires a + m == b + n
    ensures a <= b || b <= a
    ensures a == b ==> m == n
  {
    assert m == (a + m)[|a|..] && n == (b + n)[|b|..];
    if |a| <= |b| {
      assert a == (a + m)[..|a|] && b[..|a|] == (b + n)[..|a|];
    } else {
      assert b == (b + n)[..|b|] && a[..|b|] == (a + m)[..|b|];
    }
  }

  /** Each reported pair gives a collision for every message. */
  lemma ReportedPairCollides(a: string, b: string, m: string)
    requires Extends(a, b)
    ensures a + (b[|a|..] + m) == b + m
  {
    assert b == a + b[|a|..];
  }

  lemma ScanDecidesPrefixFreeness(ctxs: seq<string>)
    requires SortedKeys(ctxs)
    ensures Pairs(ctxs) == [] <==> PrefixFree(ctxs)
  {
    hide Pairs, Extends, SortedKeys;
    forall p
      ensures p in Pairs(ctxs) <==> p.0 in ctxs && p.1 in ctxs && Extends(p.0, p.1)
    {
      ScanIsComplete(ctxs, p);
    }
    if Pairs(ctxs) != [] {
      var p := Pairs(ctxs)[0];
      assert p in Pairs(ctxs);
      assert !PrefixFree(ctxs);
    }
    if a, b :| a in ctxs && b in ctxs && Extends(a, b) {
      assert (a, b) in Pairs(ctxs);
    }
  }

  /** The scan reports nothing exactly when the registry is prefix-free, and exactly when
      the concatenation path is unambiguous over it. */
  lemma ScanDecidesUnambiguity(ctxs: seq<string>)
    requires SortedKeys(ctxs)
    ensures Pairs(ctxs) == [] <==> PrefixFree(ctxs)
    ensures PrefixFree(ctxs) <==> Unambiguous(ctxs)
  {
    hide Pairs, SortedKeys;
    ScanDecidesPrefixFreeness(ctxs);
    if a, b :| a in ctxs && b in ctxs && Extends(a, b) {
      ReportedPairCollides(a, b, []);
      assert !Unambiguous(ctxs);
    } else {
      forall a, m, b, n | a in ctxs && b in ctxs && a + m == b + n
        ensures a == b && m == n
      {
        SameBytes(a, m, b, n);
        assert !Extends(a, b) && !Extends(b, a);
      }
    }
  }
}
