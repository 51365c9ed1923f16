/**
 Gates whose rules are all "signed by" leaves. Their evaluation is greedy matching of leaves to
 signatures; here it is compared with the best matching there is.
 */
module PolicyFlatGates {
  import opened Prelude
  import opened SignaturePolicies
  import opened PolicyEvaluator

  predicate Flat(es: seq<Evaluator>) {
    forall k :: 0 <= k < |es| ==> es[k].Leaf?
  }

  /** A way to answer some leaves, each by its own unused signature. */
  ghost predicate Assignment(ok: Oracle, es: seq<Evaluator>, sds: seq<SignedData>, used: seq<bool>,
                             a: seq<Option<nat>>)
    requires Flat(es) && |sds| <= |used|
  {
    && |a| == |es|
    && (forall k :: 0 <= k < |a| && a[k].Some? ==>
          a[k].value < |sds| && !used[a[k].value] && ok(es[k].principal, sds[a[k].value]))
    && (forall j, k :: 0 <= j < k < |a| && a[j].Some? && a[k].Some? ==> a[j].value != a[k].value)
  }

  /** `a` without the leaf that uses signature s, if there is one. */
  ghost function Without(a: seq<Option<nat>>, s: nat): (r: seq<Option<nat>>)
    ensures |r| == |a|
    ensures forall k :: 0 <= k < |a| ==> r[k] == if a[k] == Some(s) then None else a[k]
  {
    seq(|a|, k requires 0 <= k < |a| => if a[k] == Some(s) then None else a[k])
  }

  lemma {:induction false} WithoutSize(a: seq<Option<nat>>, s: nat)
    requires forall j, k :: 0 <= j < k < |a| && a[j].Some? && a[k].Some? ==> a[j].value != a[k].value
    ensures CountSome(a) - 1 <= CountSome(Without(a, s))
    ensures Some(s) !in a ==> Without(a, s) == a
  {
    if Some(s) in a {
      var k :| 0 <= k < |a| && a[k] == Some(s);
      CountSomeUpdate(a, k, None);
      assert Without(a, s) == a[k := None];
    } else {
      assert Without(a, s) == a;
    }
  }

  /** Greedy answering reaches at least half of what any assignment reaches. */
  lemma {:induction false} GreedyIsHalfOptimal(ok: Oracle, es: seq<Evaluator>, sds: seq<SignedData>,
                                               used: seq<bool>, a: seq<Option<nat>>)
    requires Flat(es) && |sds| <= |used|
    requires Assignment(ok, es, sds, used, a)
    ensures CountSome(a) <= 2 * Count(ok, es, sds, used).verified
  {
    if es != [] {
      var i := FirstAccepted(ok, es[0].principal, sds, used, 0);
      if i < |sds| {
        DropSignature(ok, es, sds, used, a, i);
        GreedyIsHalfOptimal(ok, es[1..], sds, used[i := true], Without(a[1..], i));
      } else {
        assert a[0].None?;
        GreedyIsHalfOptimal(ok, es[1..], sds, used, a[1..]);
      }
    }
  }

  /** If leaf j is met by a signature that also meets an earlier leaf k, it is met by all that meet k. */
  ghost predicate Nested(ok: Oracle, es: seq<Evaluator>, sds: seq<SignedData>)
    requires Flat(es)
  {
    forall k, j, s, t | 0 <= k < j < |es| && 0 <= s < |sds| && 0 <= t < |sds| ::
      ok(es[k].principal, sds[s]) && ok(es[j].principal, sds[s]) && ok(es[k].principal, sds[t])
      ==> ok(es[j].principal, sds[t])
  }

  /** Under that condition greedy answering is optimal. */
  lemma {:induction false} GreedyIsOptimal(ok: Oracle, es: seq<Evaluator>, sds: seq<SignedData>,
                                           used: seq<bool>, a: seq<Option<nat>>)
    requires Flat(es) && |sds| <= |used|
    requires Nested(ok, es, sds)
    requires Assignment(ok, es, sds, used, a)
    ensures CountSome(a) <= Count(ok, es, sds, used).verified
  {
    if es != [] {
      NestedTail(ok, es, sds);
      var i := FirstAccepted(ok, es[0].principal, sds, used, 0);
      if i < |sds| {
        var b := Exchange(ok, es, sds, used, a, i);
        GreedyIsOptimal(ok, es[1..], sds, used[i := true], b);
      } else {
        assert a[0].None?;
        GreedyIsOptimal(ok, es[1..], sds, used, a[1..]);
      }
    }
  }

  lemma {:induction false} NestedTail(ok: Oracle, es: seq<Evaluator>, sds: seq<SignedData>)
    requires Flat(es) && es != [] && Nested(ok, es, sds)
    ensures Nested(ok, es[1..], sds)
  {
    var tail := es[1..];
    forall k, j, s, t | 0 <= k < j < |tail| && 0 <= s < |sds| && 0 <= t < |sds| &&
      ok(tail[k].principal, sds[s]) && ok(tail[j].principal, sds[s]) && ok(tail[k].principal, sds[t])
      ensures ok(tail[j].principal, sds[t])
    {
      assert tail[k] == es[k + 1] && tail[j] == es[j + 1];
    }
  }

  /** Without signature i, the rest of an assignment is one for the remaining leaves with i used. */
  lemma {:induction false} DropSignature(ok: Oracle, es: seq<Evaluator>, sds: seq<SignedData>, used: seq<bool>,
                                         a: seq<Option<nat>>, i: nat)
    requires Flat(es) && es != [] && |sds| <= |used| && i < |sds|
    requires Assignment(ok, es, sds, used, a)
    ensures Assignment(ok, es[1..], sds, used[i := true], Without(a[1..], i))
    ensures CountSome(Without(a[1..], i)) >= CountSome(a[1..]) - 1
    ensures Some(i) !in a[1..] ==> CountSome(Without(a[1..], i)) == CountSome(a[1..])
  {
    WithoutSize(a[1..], i);
  }

  /** The leaf that used i takes over the signature of the first leaf instead. */
  lemma {:induction false} SwapSignature(ok: Oracle, es: seq<Evaluator>, sds: seq<SignedData>, used: seq<bool>,
                                         a: seq<Option<nat>>, i: nat, j: nat)
    requires Flat(es) && |sds| <= |used| && i < |sds|
    requires Assignment(ok, es, sds, used, a)
    requires 0 < j < |a| && a[j] == Some(i) && a[0].Some? && ok(es[j].principal, sds[a[0].value])
    ensures Assignment(ok, es[1..], sds, used[i := true], a[1..][j - 1 := a[0]])
    ensures CountSome(a[1..][j - 1 := a[0]]) == CountSome(a[1..])
  {
    CountSomeUpdate(a[1..], j - 1, a[0]);
  }

  /** Giving signature i to the first leaf costs any assignment at most one leaf. */
  lemma {:induction false} Exchange(ok: Oracle, es: seq<Evaluator>, sds: seq<SignedData>, used: seq<bool>,
                                    a: seq<Option<nat>>, i: nat) returns (b: seq<Option<nat>>)
    requires Flat(es) && es != [] && |sds| <= |used|
    requires Nested(ok, es, sds)
    requires Assignment(ok, es, sds, used, a)
    requires i < |sds| && !used[i] && ok(es[0].principal, sds[i])
    ensures Assignment(ok, es[1..], sds, used[i := true], b)
    ensures CountSome(b) >= CountSome(a) - 1
  {
    if Some(i) !in a[1..] || a[0].None? {
      DropSignature(ok, es, sds, used, a, i);
      b := Without(a[1..], i);
    } else {
      var j :| 1 <= j < |a| && a[j] == Some(i);
      assert ok(es[j].principal, sds[a[0].value]);
      SwapSignature(ok, es, sds, used, a, i, j);
      b := a[1..][j - 1 := a[0]];
    }
  }

  /** The signatures that are unused and satisfy `p`. */
  ghost function Eligible(ok: Oracle, p: Principal, sds: seq<SignedData>, used: seq<bool>): set<nat>
    requires |sds| <= |used|
  {
    set i: nat | i < |sds| && !used[i] && ok(p, sds[i])
  }

  /** The leaf takes one of them, if there is one. */
  lemma {:induction false} EligibleTaken(ok: Oracle, p: Principal, sds: seq<SignedData>, used: seq<bool>, i: nat)
    requires |sds| <= |used| && i == FirstAccepted(ok, p, sds, used, 0)
    ensures i < |sds| ==> |Eligible(ok, p, sds, used)| == |Eligible(ok, p, sds, used[i := true])| + 1
    ensures i == |sds| ==> |Eligible(ok, p, sds, used)| == 0
  {
    if i < |sds| {
      assert Eligible(ok, p, sds, used[i := true]) == Eligible(ok, p, sds, used) - {i};
    } else {
      assert Eligible(ok, p, sds, used) == {};
    }
  }

  /** Leaves that all name one principal take exactly as many signatures as there are, up to their number. */
  lemma {:induction false} OnePrincipalCount(ok: Oracle, p: Principal, es: seq<Evaluator>,
                                             sds: seq<SignedData>, used: seq<bool>)
    requires |sds| <= |used|
    requires forall k :: 0 <= k < |es| ==> es[k] == Leaf(p)
    ensures Count(ok, es, sds, used).verified ==
            if |es| <= |Eligible(ok, p, sds, used)| then |es| else |Eligible(ok, p, sds, used)|
  {
    if es != [] {
      var i := FirstAccepted(ok, p, sds, used, 0);
      EligibleTaken(ok, p, sds, used, i);
      assert es[0] == Leaf(p);
      OnePrincipalCount(ok, p, es[1..], sds, if i < |sds| then used[i := true] else used);
    }
  }

  /** An assignment of the later leaves extends to the first one. */
  lemma {:induction false} AssignFirst(ok: Oracle, es: seq<Evaluator>, sds: seq<SignedData>, used: seq<bool>,
                                       i: nat, rest: seq<Option<nat>>)
    requires Flat(es) && es != [] && |sds| <= |used|
    requires i < |sds| && !used[i] && ok(es[0].principal, sds[i])
    requires Assignment(ok, es[1..], sds, used[i := true], rest)
    ensures Assignment(ok, es, sds, used, [Some(i)] + rest)
    ensures CountSome([Some(i)] + rest) == CountSome(rest) + 1
  {
    var a := [Some(i)] + rest;
    assert a[1..] == rest;
    forall k | 0 < k < |a| && a[k].Some?
      ensures a[k].value < |sds| && !used[a[k].value] && a[k].value != i && ok(es[k].principal, sds[a[k].value])
    {
      assert a[k] == rest[k - 1] && es[k] == es[1..][k - 1];
    }
  }

  lemma {:induction false} SkipFirst(ok: Oracle, es: seq<Evaluator>, sds: seq<SignedData>, used: seq<bool>,
                                     rest: seq<Option<nat>>)
    requires Flat(es) && es != [] && |sds| <= |used|
    requires Assignment(ok, es[1..], sds, used, rest)
    ensures Assignment(ok, es, sds, used, [None] + rest)
    ensures CountSome([None] + rest) == CountSome(rest)
  {
    var a: seq<Option<nat>> := [None] + rest;
    assert a[1..] == rest;
    forall k | 0 < k < |a| ensures a[k] == rest[k - 1] && es[k] == es[1..][k - 1] {
    }
  }

  /** The greedy count is itself the size of an assignment. */
  lemma {:induction false} GreedyIsAssignment(ok: Oracle, es: seq<Evaluator>, sds: seq<SignedData>,
                                              used: seq<bool>) returns (a: seq<Option<nat>>)
    requires Flat(es) && |sds| <= |used|
    ensures Assignment(ok, es, sds, used, a)
    ensures CountSome(a) == Count(ok, es, sds, used).verified
  {
    if es == [] {
      a := [];
    } else {
      var i := FirstAccepted(ok, es[0].principal, sds, used, 0);
      if i < |sds| {
        var rest := GreedyIsAssignment(ok, es[1..], sds, used[i := true]);
        AssignFirst(ok, es, sds, used, i, rest);
        a := [Some(i)] + rest;
      } else {
        var rest := GreedyIsAssignment(ok, es[1..], sds, used);
        SkipFirst(ok, es, sds, used, rest);
        a := [None] + rest;
      }
    }
  }

  /**
   A flat gate whose leaves are nested accepts exactly when n of its leaves can be answered by
   different signatures.
   */
  lemma {:induction false} NestedGateIsExact(ok: Oracle, n: int, es: seq<Evaluator>, sds: seq<SignedData>, used: seq<bool>)
    requires Flat(es) && |sds| <= |used|
    requires Nested(ok, es, sds)
    ensures Eval(ok, Gate(n, es), sds, used).accepted <==>
            exists a :: Assignment(ok, es, sds, used, a) && CountSome(a) >= n
  {
    if Eval(ok, Gate(n, es), sds, used).accepted {
      var a := GreedyIsAssignment(ok, es, sds, used);
      assert Assignment(ok, es, sds, used, a) && CountSome(a) >= n;
    }
    forall a | Assignment(ok, es, sds, used, a) && CountSome(a) >= n
      ensures Eval(ok, Gate(n, es), sds, used).accepted
    {
      GreedyIsOptimal(ok, es, sds, used, a);
    }
  }

  /** The 2-out-of-2 gate that the builder And makes of two leaves. */
  function Both(p: Principal, q: Principal): Evaluator {
    Gate(2, [Leaf(p), Leaf(q)])
  }

  /** Two signatures that answer p and q between them make the set satisfying. */
  ghost predicate BothAnswered(ok: Oracle, p: Principal, q: Principal, sds: seq<SignedData>) {
    exists i, j :: 0 <= i < |sds| && 0 <= j < |sds| && i != j && ok(p, sds[i]) && ok(q, sds[j])
  }

  /** Whoever satisfies p satisfies q, if someone else satisfies both. */
  ghost predicate Includes(ok: Oracle, p: Principal, q: Principal) {
    forall s: SignedData, t: SignedData :: s.identity != t.identity && ok(p, s) && ok(q, s) && ok(p, t) ==> ok(q, t)
  }

  /** And of two leaves accepts every signature set that, without duplicates, answers both. */
  ghost predicate AndComplete(ok: Oracle, p: Principal, q: Principal) {
    forall signatureSet :: BothAnswered(ok, p, q, Dedup(signatureSet)) ==>
      Evaluation(ok, Both(p, q), signatureSet).accepted
  }

  lemma {:induction false} IncludedIsNested(ok: Oracle, p: Principal, q: Principal, signatureSet: seq<SignedData>)
    requires Includes(ok, p, q)
    ensures Nested(ok, [Leaf(p), Leaf(q)], Dedup(signatureSet))
  {
    DedupIdentities(signatureSet);
  }

  lemma {:induction false} IncludedAnswers(ok: Oracle, p: Principal, q: Principal, signatureSet: seq<SignedData>,
                                           i: nat, j: nat)
    requires Includes(ok, p, q)
    requires i < |Dedup(signatureSet)| && j < |Dedup(signatureSet)| && i != j
    requires ok(p, Dedup(signatureSet)[i]) && ok(q, Dedup(signatureSet)[j])
    ensures Evaluation(ok, Both(p, q), signatureSet).accepted
  {
    var es, sds := [Leaf(p), Leaf(q)], Dedup(signatureSet);
    var a: seq<Option<nat>> := [Some(i), Some(j)];
    assert CountSome(a[1..]) == 1;
    assert Assignment(ok, es, sds, NoneUsed(|signatureSet|), a);
    IncludedIsNested(ok, p, q, signatureSet);
    GreedyIsOptimal(ok, es, sds, NoneUsed(|signatureSet|), a);
  }

  /** And of two leaves misses no satisfying set exactly when whoever satisfies p satisfies q, if someone else satisfies both. */
  lemma {:induction false} AndCompleteIff(ok: Oracle, p: Principal, q: Principal)
    ensures AndComplete(ok, p, q) <==> Includes(ok, p, q)
  {
    if Includes(ok, p, q) {
      forall signatureSet | BothAnswered(ok, p, q, Dedup(signatureSet))
        ensures Evaluation(ok, Both(p, q), signatureSet).accepted
      {
        var sds := Dedup(signatureSet);
        var i, j :| 0 <= i < |sds| && 0 <= j < |sds| && i != j && ok(p, sds[i]) && ok(q, sds[j]);
        IncludedAnswers(ok, p, q, signatureSet, i, j);
      }
    } else {
      var s: SignedData, t: SignedData :| s.identity != t.identity && ok(p, s) && ok(q, s) && ok(p, t) && !ok(q, t);
      HalfIsTight(ok, p, q, s, t);
      DistinctIsKept([s, t]);
      assert ok(p, [s, t][1]) && ok(q, [s, t][0]);
      assert BothAnswered(ok, p, q, Dedup([s, t]));
      assert !Evaluation(ok, Both(p, q), [s, t]).accepted;
    }
  }

  /** The factor of two is reached: here one leaf is answered where two could be. */
  lemma {:induction false} HalfIsTight(ok: Oracle, p: Principal, q: Principal, s: SignedData, t: SignedData)
    requires ok(p, s) && ok(q, s) && ok(p, t) && !ok(q, t)
    ensures Count(ok, [Leaf(p), Leaf(q)], [s, t], NoneUsed(2)).verified == 1
    ensures Assignment(ok, [Leaf(p), Leaf(q)], [s, t], NoneUsed(2), [Some(1), Some(0)])
  {
    var es, sds := [Leaf(p), Leaf(q)], [s, t];
    assert es[0] == Leaf(p) && es[1..] == [Leaf(q)];
    assert FirstAccepted(ok, p, sds, NoneUsed(2), 0) == 0;
    var used := NoneUsed(2)[0 := true];
    assert Eval(ok, es[0], sds, NoneUsed(2)) == Outcome(true, used);
    assert !Eval(ok, es[1..][0], sds, used).accepted;
    assert Count(ok, es[1..], sds, used).verified == 0;
  }
}
