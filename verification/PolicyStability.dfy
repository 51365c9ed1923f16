/**
 What more signatures do to a decision: a flat policy never turns from accept to reject; a nested
 one may, unless no signature can answer two of its leaves.
 */
module PolicyStability {
  import opened Prelude
  import opened SignaturePolicies
  import opened PolicyEvaluator
  import opened PolicySoundness
  import opened PolicyFlatGates

  // ---------------------------------------------------------------------------------------------
  // A used signature is invisible.

  lemma {:induction false} FirstAcceptedSkipsUsed(ok: Oracle, p: Principal, sds: seq<SignedData>, used: seq<bool>,
                               j: nat, x: SignedData)
    requires |sds| <= |used| && j <= |sds|
    ensures var i := FirstAccepted(ok, p, sds, used, 0);
            FirstAccepted(ok, p, Insert(sds, j, x), Insert(used, j, true), 0) == if i < j then i else i + 1
  {
    var i := FirstAccepted(ok, p, sds, used, 0);
    var i' := if i < j then i else i + 1;
    var sds', used' := Insert(sds, j, x), Insert(used, j, true);
    forall k | 0 <= k < i' ensures used'[k] || !ok(p, sds'[k]) {
      InsertedAt(sds, used, j, x, k);
    }
    if i < |sds| {
      InsertedAt(sds, used, j, x, i');
    }
    FirstAcceptedUnique(ok, p, sds', used', i');
  }

  lemma {:induction false} FirstAcceptedUnique(ok: Oracle, p: Principal, sds: seq<SignedData>, used: seq<bool>, i: nat)
    requires i <= |sds| <= |used|
    requires i < |sds| ==> !used[i] && ok(p, sds[i])
    requires forall k :: 0 <= k < i ==> used[k] || !ok(p, sds[k])
    ensures FirstAccepted(ok, p, sds, used, 0) == i
  {
  }

  /** What stands at position k after the insertion. */
  lemma {:induction false} InsertedAt(sds: seq<SignedData>, used: seq<bool>, j: nat, x: SignedData, k: nat)
    requires |sds| <= |used| && j <= |sds| && k <= |sds|
    ensures k < j ==> Insert(sds, j, x)[k] == sds[k] && Insert(used, j, true)[k] == used[k]
    ensures k == j ==> Insert(used, j, true)[k]
    ensures k > j ==> Insert(sds, j, x)[k] == sds[k - 1] && Insert(used, j, true)[k] == used[k - 1]
  {
  }

  /** Evaluation is the same with and without a signature that is already used, anywhere in the set. */
  lemma {:induction false} EvalSkipsUsed(ok: Oracle, e: Evaluator, sds: seq<SignedData>, used: seq<bool>,
                                         j: nat, x: SignedData)
    requires |sds| <= |used| && j <= |sds|
    ensures var r := Eval(ok, e, sds, used);
            Eval(ok, e, Insert(sds, j, x), Insert(used, j, true)) == Outcome(r.accepted, Insert(r.used, j, true))
    decreases e, 1
  {
    match e
    case Leaf(p) =>
      FirstAcceptedSkipsUsed(ok, p, sds, used, j, x);
      var i := FirstAccepted(ok, p, sds, used, 0);
      if i < |sds| {
        var i' := if i < j then i else i + 1;
        assert Insert(used, j, true)[i' := true] == Insert(used[i := true], j, true);
      }
    case Gate(_, policies) => CountSkipsUsed(ok, policies, sds, used, j, x);
  }

  lemma {:induction false} CountSkipsUsed(ok: Oracle, es: seq<Evaluator>, sds: seq<SignedData>,
                                          used: seq<bool>, j: nat, x: SignedData)
    requires |sds| <= |used| && j <= |sds|
    ensures var t := Count(ok, es, sds, used);
            Count(ok, es, Insert(sds, j, x), Insert(used, j, true)) == Tally(t.verified, Insert(t.used, j, true))
    decreases es, 0
  {
    if es != [] {
      EvalSkipsUsed(ok, es[0], sds, used, j, x);
      var r := Eval(ok, es[0], sds, used);
      CountSkipsUsed(ok, es[1..], sds, if r.accepted then r.used else used, j, x);
    }
  }

  // ---------------------------------------------------------------------------------------------
  // Flat policies.

  /** Two greedy runs whose free signatures differ by one stay that close, or have settled it. */
  lemma {:induction false} OneMoreFree(ok: Oracle, es: seq<Evaluator>, sds: seq<SignedData>,
                                       used: seq<bool>, x: nat)
    requires Flat(es) && |sds| <= |used|
    requires x < |sds| && used[x]
    ensures var v, v' := Count(ok, es, sds, used).verified, Count(ok, es, sds, used[x := false]).verified;
            v <= v' <= v + 1
  {
    if es != [] {
      var more := used[x := false];
      var a := FirstAccepted(ok, es[0].principal, sds, used, 0);
      var b := FirstAccepted(ok, es[0].principal, sds, more, 0);
      assert b == x || b == a;
      if b == x {
        assert more[x := true] == used;
        if a < |sds| {
          assert used == used[a := true][a := false];
          OneMoreFree(ok, es[1..], sds, used[a := true], a);
        }
      } else if a < |sds| {
        assert more[a := true] == used[a := true][x := false];
        OneMoreFree(ok, es[1..], sds, used[a := true], x);
      } else {
        OneMoreFree(ok, es[1..], sds, used, x);
      }
    }
  }

  lemma {:induction false} DedupSnoc(sds: seq<SignedData>, x: SignedData)
    ensures Dedup(sds + [x]) == if HasIdentity(sds, x.identity) then Dedup(sds) else Dedup(sds) + [x]
  {
    assert (sds + [x])[..|sds|] == sds;
  }

  lemma {:induction false} InsertSnoc<T>(s: seq<T>, y: T, j: nat, x: T)
    requires j <= |s|
    ensures Insert(s + [y], j, x) == Insert(s, j, x) + [y]
  {
  }

  /** A fresh identity inserted into the set is inserted into the deduplicated set. */
  lemma {:induction false} DedupInsert(sds: seq<SignedData>, j: nat, x: SignedData)
    requires j <= |sds| && !HasIdentity(sds, x.identity)
    ensures |Dedup(sds[..j])| <= |Dedup(sds)|
    ensures Dedup(Insert(sds, j, x)) == Insert(Dedup(sds), |Dedup(sds[..j])|, x)
    decreases |sds|
  {
    if j == |sds| {
      assert Insert(sds, j, x) == sds + [x] && sds[..j] == sds;
      DedupSnoc(sds, x);
    } else {
      var init, last := sds[..|sds| - 1], sds[|sds| - 1];
      assert sds == init + [last] && init[..j] == sds[..j];
      assert !HasIdentity(init, x.identity) && last.identity != x.identity by {
        HasIdentityAppend(init, last, x.identity);
      }
      DedupInsert(init, j, x);
      var at := |Dedup(sds[..j])|;
      assert Dedup(Insert(sds, j, x)) == Dedup(Insert(init, j, x) + [last]) by {
        InsertSnoc(init, last, j, x);
      }
      DedupSnoc(Insert(init, j, x), last);
      DedupSnoc(init, last);
      InsertKeepsIdentities(init, j, x, last.identity);
      InsertSnoc(Dedup(init), last, at, x);
    }
  }

  lemma {:induction false} InsertKeepsIdentities(sds: seq<SignedData>, j: nat, x: SignedData, id: Bytes)
    requires j <= |sds| && x.identity != id
    ensures HasIdentity(Insert(sds, j, x), id) <==> HasIdentity(sds, id)
  {
    var more := Insert(sds, j, x);
    if HasIdentity(sds, id) {
      var i :| 0 <= i < |sds| && sds[i].identity == id;
      assert more[if i < j then i else i + 1].identity == id;
    }
    if HasIdentity(more, id) {
      var i :| 0 <= i < |more| && more[i].identity == id;
      assert sds[if i < j then i else i - 1].identity == id;
    }
  }

  /** How many rules of a root gate an evaluation of the signature set verifies. */
  function Verified(ok: Oracle, es: seq<Evaluator>, signatureSet: seq<SignedData>): nat {
    Count(ok, es, Dedup(signatureSet), NoneUsed(|signatureSet|)).verified
  }

  lemma {:induction false} FreedIsNone(count: nat, at: nat)
    requires at <= count
    ensures Insert(NoneUsed(count), at, true)[at := false] == NoneUsed(count + 1)
  {
  }

  /** A datum put into the deduplicated set verifies the same rules of a flat gate or one more. */
  lemma {:induction false} FlatInsert(ok: Oracle, es: seq<Evaluator>, sds: seq<SignedData>, count: nat, at: nat, x: SignedData,
                                      sds': seq<SignedData>, used: seq<bool>)
    requires Flat(es) && |sds| <= count && at <= |sds| && sds' == Insert(sds, at, x) && used == NoneUsed(count + 1)
    ensures var v := Count(ok, es, sds, NoneUsed(count)).verified;
            v <= Count(ok, es, sds', used).verified <= v + 1
  {
    CountSkipsUsed(ok, es, sds, NoneUsed(count), at, x);
    OneMoreFree(ok, es, sds', Insert(NoneUsed(count), at, true), at);
    FreedIsNone(count, at);
  }

  /** One more signer, anywhere in the set, verifies the same rules of a flat gate or one more. */
  lemma {:induction false} FlatStability(ok: Oracle, es: seq<Evaluator>, signatureSet: seq<SignedData>, j: nat, x: SignedData)
    requires Flat(es)
    requires j <= |signatureSet| && !HasIdentity(signatureSet, x.identity)
    ensures var v, v' := Verified(ok, es, signatureSet), Verified(ok, es, Insert(signatureSet, j, x));
            v <= v' <= v + 1
  {
    DedupInsert(signatureSet, j, x);
    var more := Insert(signatureSet, j, x);
    FlatInsert(ok, es, Dedup(signatureSet), |signatureSet|, |Dedup(signatureSet[..j])|, x, Dedup(more), NoneUsed(|more|));
  }

  /** A leaf, or a gate over leaves only. */
  predicate FlatPolicy(e: Evaluator) {
    e.Leaf? || Flat(e.policies)
  }

  /** More signers never make a flat policy reject. */
  lemma {:induction false} FlatNeverRevoked(ok: Oracle, e: Evaluator, signatureSet: seq<SignedData>, j: nat, x: SignedData)
    requires FlatPolicy(e)
    requires j <= |signatureSet| && !HasIdentity(signatureSet, x.identity)
    requires Evaluation(ok, e, signatureSet).accepted
    ensures Evaluation(ok, e, Insert(signatureSet, j, x)).accepted
  {
    if e.Leaf? {
      FlatStability(ok, [e], signatureSet, j, x);
    } else {
      FlatStability(ok, e.policies, signatureSet, j, x);
    }
  }

  // ---------------------------------------------------------------------------------------------
  // Nested policies.

  /** The principals at the leaves, left to right. */
  function Principals(e: Evaluator): seq<Principal>
    decreases e, 1
  {
    match e
    case Leaf(p) => [p]
    case Gate(_, policies) => PrincipalsAll(policies)
  }

  function PrincipalsAll(es: seq<Evaluator>): seq<Principal>
    decreases es, 0
  {
    if es == [] then [] else Principals(es[0]) + PrincipalsAll(es[1..])
  }

  /** No signature of the set answers two leaves. */
  ghost predicate ReadOnce(ok: Oracle, ps: seq<Principal>, sds: seq<SignedData>) {
    forall i, j, s :: 0 <= i < j < |ps| && 0 <= s < |sds| ==> !(ok(ps[i], sds[s]) && ok(ps[j], sds[s]))
  }

  /** Some leaf of `ps` could be answered by signature s. */
  ghost predicate Wanted(ok: Oracle, ps: seq<Principal>, sd: SignedData) {
    exists i :: 0 <= i < |ps| && ok(ps[i], sd)
  }

  /** The policy read as a monotone threshold formula, each leaf on its own. */
  predicate Formula(ok: Oracle, e: Evaluator, sds: seq<SignedData>, used: seq<bool>)
    requires |sds| <= |used|
    decreases e, 1
  {
    match e
    case Leaf(p) => FirstAccepted(ok, p, sds, used, 0) < |sds|
    case Gate(n, policies) => FormulaCount(ok, policies, sds, used) >= n
  }

  function FormulaCount(ok: Oracle, es: seq<Evaluator>, sds: seq<SignedData>, used: seq<bool>): nat
    requires |sds| <= |used|
    decreases es, 0
  {
    if es == [] then 0
    else (if Formula(ok, es[0], sds, used) then 1 else 0) + FormulaCount(ok, es[1..], sds, used)
  }

  /** Evaluation marks only signatures that some leaf of the evaluator wants. */
  lemma {:induction false} MarksAreWanted(ok: Oracle, e: Evaluator, sds: seq<SignedData>, used: seq<bool>)
    requires |sds| <= |used|
    ensures var after := Eval(ok, e, sds, used).used;
            forall s :: 0 <= s < |sds| && after[s] != used[s] ==> Wanted(ok, Principals(e), sds[s])
    decreases e, 1
  {
    match e
    case Leaf(p) =>
      var i := FirstAccepted(ok, p, sds, used, 0);
      if i < |sds| {
        assert ok(Principals(e)[0], sds[i]);
      }
    case Gate(_, policies) => CountMarksAreWanted(ok, policies, sds, used);
  }

  lemma {:induction false} CountMarksAreWanted(ok: Oracle, es: seq<Evaluator>, sds: seq<SignedData>, used: seq<bool>)
    requires |sds| <= |used|
    ensures var after := Count(ok, es, sds, used).used;
            forall s :: 0 <= s < |sds| && after[s] != used[s] ==> Wanted(ok, PrincipalsAll(es), sds[s])
    decreases es, 0
  {
    if es != [] {
      MarksAreWanted(ok, es[0], sds, used);
      var r := Eval(ok, es[0], sds, used);
      CountMarksAreWanted(ok, es[1..], sds, if r.accepted then r.used else used);
      forall sd { WantedConcat(ok, Principals(es[0]), PrincipalsAll(es[1..]), sd); }
    }
  }

  lemma {:induction false} WantedConcat(ok: Oracle, ps: seq<Principal>, qs: seq<Principal>, sd: SignedData)
    ensures Wanted(ok, ps + qs, sd) <==> Wanted(ok, ps, sd) || Wanted(ok, qs, sd)
  {
    if Wanted(ok, ps, sd) {
      var i :| 0 <= i < |ps| && ok(ps[i], sd);
      assert ok((ps + qs)[i], sd);
    }
    if Wanted(ok, qs, sd) {
      var i :| 0 <= i < |qs| && ok(qs[i], sd);
      assert ok((ps + qs)[|ps| + i], sd);
    }
  }

  /** Marks on signatures that no leaf wants do not change the formula. */
  lemma {:induction false} FormulaFrame(ok: Oracle, e: Evaluator, sds: seq<SignedData>, u: seq<bool>, v: seq<bool>)
    requires |sds| <= |u| == |v|
    requires forall s :: 0 <= s < |sds| && u[s] != v[s] ==> !Wanted(ok, Principals(e), sds[s])
    ensures Formula(ok, e, sds, u) == Formula(ok, e, sds, v)
    decreases e, 1
  {
    match e
    case Leaf(p) =>
      forall s | 0 <= s < |sds| && ok(p, sds[s]) ensures u[s] == v[s] {
        assert ok(Principals(e)[0], sds[s]);
      }
    case Gate(_, policies) => FormulaCountFrame(ok, policies, sds, u, v);
  }

  lemma {:induction false} FormulaCountFrame(ok: Oracle, es: seq<Evaluator>, sds: seq<SignedData>,
                                             u: seq<bool>, v: seq<bool>)
    requires |sds| <= |u| == |v|
    requires forall s :: 0 <= s < |sds| && u[s] != v[s] ==> !Wanted(ok, PrincipalsAll(es), sds[s])
    ensures FormulaCount(ok, es, sds, u) == FormulaCount(ok, es, sds, v)
    decreases es, 0
  {
    if es != [] {
      forall sd { WantedConcat(ok, Principals(es[0]), PrincipalsAll(es[1..]), sd); }
      FormulaFrame(ok, es[0], sds, u, v);
      FormulaCountFrame(ok, es[1..], sds, u, v);
    }
  }

  /** When no signature answers two leaves, evaluation decides the formula: nothing is lost to greed. */
  lemma {:induction false} ReadOnceIsFormula(ok: Oracle, e: Evaluator, sds: seq<SignedData>, used: seq<bool>)
    requires |sds| <= |used|
    requires ReadOnce(ok, Principals(e), sds)
    ensures Eval(ok, e, sds, used).accepted == Formula(ok, e, sds, used)
    decreases e, 1
  {
    if e.Gate? {
      ReadOnceIsFormulaCount(ok, e.policies, sds, used);
    }
  }

  lemma {:induction false} ReadOnceIsFormulaCount(ok: Oracle, es: seq<Evaluator>, sds: seq<SignedData>, used: seq<bool>)
    requires |sds| <= |used|
    requires ReadOnce(ok, PrincipalsAll(es), sds)
    ensures Count(ok, es, sds, used).verified == FormulaCount(ok, es, sds, used)
    decreases es, 0
  {
    if es != [] {
      var ps, qs := Principals(es[0]), PrincipalsAll(es[1..]);
      ReadOnceConcat(ok, ps, qs, sds);
      ReadOnceIsFormula(ok, es[0], sds, used);
      var r := Eval(ok, es[0], sds, used);
      var next := if r.accepted then r.used else used;
      ReadOnceIsFormulaCount(ok, es[1..], sds, next);
      MarksAreWanted(ok, es[0], sds, used);
      FormulaCountFrame(ok, es[1..], sds, used, next);
    }
  }

  lemma {:induction false} ReadOnceConcat(ok: Oracle, ps: seq<Principal>, qs: seq<Principal>, sds: seq<SignedData>)
    requires ReadOnce(ok, ps + qs, sds)
    ensures ReadOnce(ok, ps, sds) && ReadOnce(ok, qs, sds)
    ensures forall s :: 0 <= s < |sds| && Wanted(ok, ps, sds[s]) ==> !Wanted(ok, qs, sds[s])
  {
    var all := ps + qs;
    forall i, j, s | 0 <= i < j < |ps| && 0 <= s < |sds| ensures !(ok(ps[i], sds[s]) && ok(ps[j], sds[s])) {
      assert all[i] == ps[i] && all[j] == ps[j];
    }
    forall i, j, s | 0 <= i < j < |qs| && 0 <= s < |sds| ensures !(ok(qs[i], sds[s]) && ok(qs[j], sds[s])) {
      assert all[|ps| + i] == qs[i] && all[|ps| + j] == qs[j];
    }
    forall s | 0 <= s < |sds| && Wanted(ok, ps, sds[s]) ensures !Wanted(ok, qs, sds[s]) {
      var i :| 0 <= i < |ps| && ok(ps[i], sds[s]);
      forall j | 0 <= j < |qs| ensures !ok(qs[j], sds[s]) {
        assert all[i] == ps[i] && all[|ps| + j] == qs[j];
      }
    }
  }

  /** A witness makes the formula true. */
  lemma {:induction false} SupportsFormula(ok: Oracle, e: Evaluator, sds: seq<SignedData>, used: seq<bool>, w: Witness)
    requires |sds| <= |used| && forall s :: 0 <= s < |sds| ==> !used[s]
    requires Supports(ok, e, sds, w)
    ensures Formula(ok, e, sds, used)
    decreases e, 1
  {
    if e.Gate? {
      SupportsFormulaCount(ok, e.policies, sds, used, w.children);
    }
  }

  lemma {:induction false} SupportsFormulaCount(ok: Oracle, es: seq<Evaluator>, sds: seq<SignedData>,
                                                used: seq<bool>, ws: seq<Option<Witness>>)
    requires |sds| <= |used| && forall s :: 0 <= s < |sds| ==> !used[s]
    requires SupportsAll(ok, es, sds, ws)
    ensures FormulaCount(ok, es, sds, used) >= CountSome(ws)
    decreases es, 0
  {
    if es != [] {
      if ws[0].Some? {
        SupportsFormula(ok, es[0], sds, used, ws[0].value);
      }
      SupportsFormulaCount(ok, es[1..], sds, used, ws[1..]);
    }
  }

  /** A policy of any depth, read once by the set, accepts it exactly when it has a witness. */
  lemma {:induction false} ReadOnceIsExact(ok: Oracle, e: Evaluator, signatureSet: seq<SignedData>)
    requires ReadOnce(ok, Principals(e), Dedup(signatureSet))
    ensures Evaluation(ok, e, signatureSet).accepted <==>
            HasWitness(ok, e, Dedup(signatureSet))
  {
    var sds, used := Dedup(signatureSet), NoneUsed(|signatureSet|);
    ReadOnceIsFormula(ok, e, sds, used);
    if Eval(ok, e, sds, used).accepted {
      var w := EvalSound(ok, e, sds, used);
      assert Supports(ok, e, sds, w);
    }
    if HasWitness(ok, e, sds) {
      var w :| Supports(ok, e, sds, w);
      SupportsFormula(ok, e, sds, used, w);
    }
  }

  /** Formulas are monotone in the set of signatures. */
  lemma {:induction false} FormulaMonotone(ok: Oracle, e: Evaluator, sds: seq<SignedData>, u: seq<bool>,
                                           more: seq<SignedData>, v: seq<bool>)
    requires |sds| <= |u| && |more| <= |v|
    requires forall s :: 0 <= s < |more| ==> !v[s]
    requires forall sd :: sd in sds ==> sd in more
    ensures Formula(ok, e, sds, u) ==> Formula(ok, e, more, v)
    decreases e, 1
  {
    match e
    case Leaf(p) =>
      var i := FirstAccepted(ok, p, sds, u, 0);
      if i < |sds| {
        assert sds[i] in more;
        var k :| 0 <= k < |more| && more[k] == sds[i];
      }
    case Gate(_, policies) => FormulaCountMonotone(ok, policies, sds, u, more, v);
  }

  lemma {:induction false} FormulaCountMonotone(ok: Oracle, es: seq<Evaluator>, sds: seq<SignedData>, u: seq<bool>,
                                                more: seq<SignedData>, v: seq<bool>)
    requires |sds| <= |u| && |more| <= |v|
    requires forall s :: 0 <= s < |more| ==> !v[s]
    requires forall sd :: sd in sds ==> sd in more
    ensures FormulaCount(ok, es, sds, u) <= FormulaCount(ok, es, more, v)
    decreases es, 0
  {
    if es != [] {
      FormulaMonotone(ok, es[0], sds, u, more, v);
      FormulaCountMonotone(ok, es[1..], sds, u, more, v);
    }
  }

  /** More signatures never make a read-once policy of any depth reject. */
  lemma {:induction false} ReadOnceNeverRevoked(ok: Oracle, e: Evaluator, signatureSet: seq<SignedData>, more: seq<SignedData>)
    requires forall sd :: sd in Dedup(signatureSet) ==> sd in Dedup(more)
    requires ReadOnce(ok, Principals(e), Dedup(more))
    requires Evaluation(ok, e, signatureSet).accepted
    ensures Evaluation(ok, e, more).accepted
  {
    var sds, used := Dedup(signatureSet), NoneUsed(|signatureSet|);
    forall i, j, s | 0 <= i < j < |Principals(e)| && 0 <= s < |sds|
      ensures !(ok(Principals(e)[i], sds[s]) && ok(Principals(e)[j], sds[s]))
    {
      assert sds[s] in Dedup(more);
    }
    ReadOnceIsFormula(ok, e, sds, used);
    ReadOnceIsFormula(ok, e, Dedup(more), NoneUsed(|more|));
    FormulaMonotone(ok, e, sds, used, Dedup(more), NoneUsed(|more|));
  }
}
