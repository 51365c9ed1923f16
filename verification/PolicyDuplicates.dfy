/**
 Which signature sets no policy can tell apart, and so what a further datum of an identity that is
 already in the set can change.
 */
module PolicyDuplicates {
  import opened Prelude
  import opened SignaturePolicies
  import opened PolicyEvaluator
  import opened PolicyFlatGates
  import opened PolicyStability

  /** Every policy decides the two sets alike, whatever the principals mean. */
  ghost predicate SameDecisions(a: seq<SignedData>, b: seq<SignedData>) {
    forall ok: Oracle, e: Evaluator :: Evaluation(ok, e, a).accepted == Evaluation(ok, e, b).accepted
  }

  // ---------------------------------------------------------------------------------------------
  // The length of the vector of used signatures does not matter.

  lemma {:induction false} FirstAcceptedLonger(ok: Oracle, p: Principal, sds: seq<SignedData>, used: seq<bool>, extra: seq<bool>)
    requires |sds| <= |used|
    ensures FirstAccepted(ok, p, sds, used + extra, 0) == FirstAccepted(ok, p, sds, used, 0)
  {
    FirstAcceptedUnique(ok, p, sds, used + extra, FirstAccepted(ok, p, sds, used, 0));
  }

  lemma {:induction false} EvalLonger(ok: Oracle, e: Evaluator, sds: seq<SignedData>, used: seq<bool>, extra: seq<bool>)
    requires |sds| <= |used|
    ensures var r := Eval(ok, e, sds, used);
            Eval(ok, e, sds, used + extra) == Outcome(r.accepted, r.used + extra)
    decreases e, 1
  {
    match e
    case Leaf(p) =>
      FirstAcceptedLonger(ok, p, sds, used, extra);
      var i := FirstAccepted(ok, p, sds, used, 0);
      assert i < |sds| ==> (used + extra)[i := true] == used[i := true] + extra;
    case Gate(_, policies) => CountLonger(ok, policies, sds, used, extra);
  }

  lemma {:induction false} CountLonger(ok: Oracle, es: seq<Evaluator>, sds: seq<SignedData>, used: seq<bool>, extra: seq<bool>)
    requires |sds| <= |used|
    ensures var t := Count(ok, es, sds, used);
            Count(ok, es, sds, used + extra) == Tally(t.verified, t.used + extra)
    decreases es, 0
  {
    if es != [] {
      EvalLonger(ok, es[0], sds, used, extra);
      var r := Eval(ok, es[0], sds, used);
      CountLonger(ok, es[1..], sds, if r.accepted then r.used else used, extra);
    }
  }

  /** Evaluation depends on the deduplicated set alone. */
  lemma {:induction false} DedupDecides(ok: Oracle, e: Evaluator, signatureSet: seq<SignedData>)
    ensures Evaluation(ok, e, signatureSet).accepted ==
            Eval(ok, e, Dedup(signatureSet), NoneUsed(|Dedup(signatureSet)|)).accepted
  {
    var n, m := |Dedup(signatureSet)|, |signatureSet|;
    EvalLonger(ok, e, Dedup(signatureSet), NoneUsed(n), NoneUsed(m - n));
    assert NoneUsed(n) + NoneUsed(m - n) == NoneUsed(m);
  }

  // ---------------------------------------------------------------------------------------------
  // Different deduplicated sets are told apart by a leaf or by And of two leaves.

  const Loose := MalformedPrincipal
  const Strict := UnknownPrincipal(0)

  lemma {:induction false} LeafDecides(ok: Oracle, p: Principal, signatureSet: seq<SignedData>)
    ensures Evaluation(ok, Leaf(p), signatureSet).accepted <==> exists sd :: sd in Dedup(signatureSet) && ok(p, sd)
  {
    var sds := Dedup(signatureSet);
    var i := FirstAccepted(ok, p, sds, NoneUsed(|signatureSet|), 0);
    if i < |sds| {
      assert sds[i] in sds;
    }
  }

  /** Sets decided alike keep the same data. */
  lemma {:induction false} SameData(a: seq<SignedData>, b: seq<SignedData>, x: SignedData)
    requires SameDecisions(a, b)
    ensures x in Dedup(a) <==> x in Dedup(b)
  {
    var ok: Oracle := (p, sd) => sd == x;
    LeafDecides(ok, Loose, a);
    LeafDecides(ok, Loose, b);
    assert Evaluation(ok, Leaf(Loose), a).accepted == Evaluation(ok, Leaf(Loose), b).accepted;
  }

  /** Either of x and y will do for the first leaf, only x for the second. */
  function Ordering(x: SignedData, y: SignedData): Oracle {
    (p, sd) => sd == x || (sd == y && p == Loose)
  }

  /** Then And of the leaves accepts exactly when y comes first. */
  lemma {:induction false} AndOrders(x: SignedData, y: SignedData, sds: seq<SignedData>, used: seq<bool>, i: nat, j: nat)
    requires x != y && Distinct(sds) && |sds| <= |used| && forall k :: 0 <= k < |used| ==> !used[k]
    requires i < |sds| && j < |sds| && sds[i] == x && sds[j] == y
    ensures Eval(Ordering(x, y), Both(Loose, Strict), sds, used).accepted <==> j < i
  {
    var ok, es := Ordering(x, y), [Leaf(Loose), Leaf(Strict)];
    var first := if i < j then i else j;
    FirstAcceptedUnique(ok, Loose, sds, used, first);
    var next := used[first := true];
    FirstAcceptedUnique(ok, Strict, sds, next, if i < j then |sds| else i);
    assert es[0] == Leaf(Loose) && es[1..] == [Leaf(Strict)];
    assert Count(ok, es[1..][1..], sds, Eval(ok, es[1..][0], sds, next).used).verified == 0;
    assert Count(ok, es[1..], sds, next).verified == if i < j then 0 else 1;
  }

  /** Sets decided alike keep the data in the same order. */
  lemma {:induction false} SameOrder(a: seq<SignedData>, b: seq<SignedData>, k: nat)
    requires SameDecisions(a, b)
    requires k < |Dedup(a)| && k < |Dedup(b)| && Dedup(a)[..k] == Dedup(b)[..k]
    ensures Dedup(a)[k] == Dedup(b)[k]
  {
    var x, y := Dedup(a)[k], Dedup(b)[k];
    if x != y {
      SameData(a, b, x);
      SameData(a, b, y);
      var i := LaterIn(b, a, x, k);
      var j := LaterIn(a, b, y, k);
      DedupIdentities(a);
      DedupIdentities(b);
      assert Evaluation(Ordering(x, y), Both(Loose, Strict), a).accepted ==
             Evaluation(Ordering(x, y), Both(Loose, Strict), b).accepted;
      AndOrders(x, y, Dedup(a), NoneUsed(|a|), k, j);
      AndOrders(x, y, Dedup(b), NoneUsed(|b|), i, k);
    }
  }

  /** A datum at position k of one set occurs in the other after k, if they agree before k and differ there. */
  lemma {:induction false} LaterIn(a: seq<SignedData>, b: seq<SignedData>, x: SignedData, k: nat) returns (i: nat)
    requires k < |Dedup(a)| && k < |Dedup(b)| && Dedup(a)[..k] == Dedup(b)[..k]
    requires Dedup(b)[k] == x && x in Dedup(a) && Dedup(a)[k] != x
    ensures k < i < |Dedup(a)| && Dedup(a)[i] == x
  {
    i :| 0 <= i < |Dedup(a)| && Dedup(a)[i] == x;
    DedupIdentities(b);
    forall m | 0 <= m < k ensures Dedup(a)[m] == Dedup(b)[m] {
      assert Dedup(a)[..k][m] == Dedup(b)[..k][m];
    }
  }

  lemma {:induction false} SamePrefix(a: seq<SignedData>, b: seq<SignedData>, k: nat)
    requires SameDecisions(a, b)
    requires k <= |Dedup(a)| && k <= |Dedup(b)|
    ensures Dedup(a)[..k] == Dedup(b)[..k]
  {
    if k > 0 {
      SamePrefix(a, b, k - 1);
      SameOrder(a, b, k - 1);
    }
  }

  /** No longer set is decided like a shorter one. */
  lemma {:induction false} NotLonger(a: seq<SignedData>, b: seq<SignedData>)
    requires SameDecisions(a, b)
    ensures |Dedup(a)| <= |Dedup(b)|
  {
    var n := |Dedup(b)|;
    if n < |Dedup(a)| {
      SamePrefix(a, b, n);
      SameData(a, b, Dedup(a)[n]);
      assert Dedup(a)[n] in Dedup(b);
      var i :| 0 <= i < n && Dedup(b)[i] == Dedup(a)[n];
      assert Dedup(a)[..n][i] == Dedup(b)[..n][i];
      DedupIdentities(a);
      assert false;
    }
  }

  /** Two signature sets are decided alike by every policy exactly when deduplication makes them equal. */
  lemma {:induction false} SameDecisionsIff(a: seq<SignedData>, b: seq<SignedData>)
    ensures SameDecisions(a, b) <==> Dedup(a) == Dedup(b)
  {
    if Dedup(a) == Dedup(b) {
      forall ok: Oracle, e: Evaluator ensures Evaluation(ok, e, a).accepted == Evaluation(ok, e, b).accepted {
        DedupDecides(ok, e, a);
        DedupDecides(ok, e, b);
      }
    }
    if SameDecisions(a, b) {
      NotLonger(a, b);
      NotLonger(b, a);
      SamePrefix(a, b, |Dedup(a)|);
      assert Dedup(a)[..|Dedup(a)|] == Dedup(a) && Dedup(b)[..|Dedup(b)|] == Dedup(b);
    }
  }

  // ---------------------------------------------------------------------------------------------
  // One more datum.

  lemma {:induction false} DedupPrefix(sds: seq<SignedData>, j: nat)
    requires j <= |sds|
    ensures Dedup(sds[..j]) <= Dedup(sds)
    decreases |sds|
  {
    if j == |sds| {
      assert sds[..j] == sds;
    } else {
      var init := sds[..|sds| - 1];
      assert init[..j] == sds[..j];
      DedupPrefix(init, j);
    }
  }

  /** A datum whose identity comes earlier in the set is dropped. */
  lemma {:induction false} KnownIsDropped(sds: seq<SignedData>, j: nat, x: SignedData)
    requires j <= |sds| && HasIdentity(sds[..j], x.identity)
    ensures Dedup(Insert(sds, j, x)) == Dedup(sds)
    decreases |sds|
  {
    if j == |sds| {
      assert sds[..j] == sds && Insert(sds, j, x) == sds + [x];
      DedupSnoc(sds, x);
    } else {
      var init, last := sds[..|sds| - 1], sds[|sds| - 1];
      assert sds == init + [last] && init[..j] == sds[..j];
      KnownIsDropped(init, j, x);
      SnocBoth(init, j, x, last);
    }
  }

  /** If the insertion makes no difference so far, a further datum at the end makes none either. */
  lemma {:induction false} SnocBoth(init: seq<SignedData>, j: nat, x: SignedData, last: SignedData)
    requires j <= |init| && Dedup(Insert(init, j, x)) == Dedup(init)
    ensures Dedup(Insert(init + [last], j, x)) == Dedup(init + [last])
  {
    InsertSnoc(init, last, j, x);
    DedupSnoc(Insert(init, j, x), last);
    DedupSnoc(init, last);
    DedupIdentities(init);
    DedupIdentities(Insert(init, j, x));
  }

  /** A copy of a datum that is new at the end takes its place, if everything in between is dropped. */
  lemma {:induction false} CopyOfLast(init: seq<SignedData>, j: nat, x: SignedData)
    requires j <= |init| && !HasIdentity(init, x.identity) && |Dedup(init[..j])| == |Dedup(init)|
    ensures Dedup(Insert(init + [x], j, x)) == Dedup(init + [x])
  {
    DedupInsert(init, j, x);
    assert Dedup(Insert(init, j, x)) == Dedup(init) + [x];
    InsertSnoc(init, x, j, x);
    DedupSnoc(Insert(init, j, x), x);
    DedupSnoc(init, x);
    assert Insert(init, j, x)[j] == x;
  }

  /** A copy of the datum that deduplication keeps next takes its place. */
  lemma {:induction false} CopyTakesPlace(sds: seq<SignedData>, j: nat, x: SignedData)
    requires j <= |sds|
    requires |Dedup(sds[..j])| < |Dedup(sds)| && Dedup(sds)[|Dedup(sds[..j])|] == x
    ensures Dedup(Insert(sds, j, x)) == Dedup(sds)
    decreases |sds|
  {
    assert sds[..|sds|] == sds;
    var init, last := sds[..|sds| - 1], sds[|sds| - 1];
    assert sds == init + [last] && init[..j] == sds[..j];
    DedupSnoc(init, last);
    DedupPrefix(init, j);
    if |Dedup(sds[..j])| < |Dedup(init)| {
      CopyTakesPlace(init, j, x);
      SnocBoth(init, j, x, last);
    } else {
      CopyOfLast(init, j, x);
    }
  }

  /** The identity comes earlier in the set, or the datum is the one that deduplication keeps next. */
  ghost predicate Redundant(sds: seq<SignedData>, j: nat, x: SignedData)
    requires j <= |sds|
  {
    || HasIdentity(sds[..j], x.identity)
    || (var at := |Dedup(sds[..j])|; at < |Dedup(sds)| && Dedup(sds)[at] == x)
  }

  /** A datum put into a signature set changes no decision of any policy exactly when it is redundant. */
  lemma {:induction false} InsertUnchangedIff(sds: seq<SignedData>, j: nat, x: SignedData)
    requires j <= |sds|
    ensures SameDecisions(sds, Insert(sds, j, x)) <==> Redundant(sds, j, x)
  {
    var more, at := Insert(sds, j, x), |Dedup(sds[..j])|;
    SameDecisionsIff(sds, more);
    if HasIdentity(sds[..j], x.identity) {
      KnownIsDropped(sds, j, x);
    } else {
      assert more[..j + 1] == sds[..j] + [x];
      DedupSnoc(sds[..j], x);
      DedupPrefix(more, j + 1);
      assert Dedup(more)[at] == x;
      if Redundant(sds, j, x) {
        CopyTakesPlace(sds, j, x);
      }
    }
  }

  /** Deduplication keeps the first datum of an identity, so a bad signature in front of a good one is decisive. */
  lemma {:induction false} BadSignatureFirst(ok: Oracle, p: Principal, bad: SignedData, good: SignedData)
    requires bad.identity == good.identity && !ok(p, bad) && ok(p, good)
    ensures Evaluation(ok, Leaf(p), [good]).accepted
    ensures !Evaluation(ok, Leaf(p), [bad, good]).accepted
  {
    DistinctIsKept([good]);
    var both := [bad, good];
    DistinctIsKept([bad]);
    assert both[..1] == [bad];
    assert HasIdentity([bad], good.identity) by { assert [bad][0].identity == good.identity; }
    assert Dedup(both) == [bad];
  }
}
