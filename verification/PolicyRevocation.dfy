/**
 Policies that one more signature never makes reject. Rejection comes from rollback: a gate that needs
 several rules gives back the signatures of a failed attempt, and with one more signature keeps them.
 */
module PolicyRevocation {
  import opened Prelude
  import opened SignaturePolicies
  import opened PolicyEvaluator
  import opened PolicyStability

  /** Whoever signs in addition, an accepted signature set stays accepted. */
  ghost predicate NeverRevoked(e: Evaluator) {
    forall ok: Oracle, signatureSet, j: nat, x: SignedData ::
      j <= |signatureSet| && !HasIdentity(signatureSet, x.identity) && Evaluation(ok, e, signatureSet).accepted
      ==> Evaluation(ok, e, Insert(signatureSet, j, x)).accepted
  }

  /** Gives nothing back: a leaf, or a gate that one rule satisfies. */
  predicate NoRollback(e: Evaluator) {
    e.Leaf? || (e.n <= 1 && forall k :: 0 <= k < |e.policies| ==> NoRollback(e.policies[k]))
  }

  /** Gives something back only when nothing above it can be accepted any more. */
  predicate Firm(e: Evaluator) {
    || NoRollback(e)
    || (e.Gate? && forall k :: 0 <= k < |e.policies| ==> NoRollback(e.policies[k]))
    || (e.Gate? && e.n >= |e.policies| && forall k :: 0 <= k < |e.policies| ==> Firm(e.policies[k]))
  }

  /** A firm policy, an Or of steady ones, or an And of firm ones with a steady one at the end. */
  predicate Steady(e: Evaluator) {
    || Firm(e)
    || (e.Gate? && e.n <= 1 && forall k :: 0 <= k < |e.policies| ==> Steady(e.policies[k]))
    || (e.Gate? && e.n >= |e.policies| && e.policies != [] && Steady(e.policies[|e.policies| - 1]) &&
        forall k :: 0 <= k < |e.policies| - 1 ==> Firm(e.policies[k]))
  }

  // ---------------------------------------------------------------------------------------------
  // Two evaluations, the second with one more free signature.

  /** v is u, or u with one used signature freed. */
  ghost predicate Freer(u: seq<bool>, v: seq<bool>) {
    v == u || exists x :: 0 <= x < |u| && u[x] && v == u[x := false]
  }

  /** The marks that an enclosing gate goes on with. */
  function Kept(ok: Oracle, e: Evaluator, sds: seq<SignedData>, used: seq<bool>): seq<bool>
    requires |sds| <= |used|
  {
    var r := Eval(ok, e, sds, used);
    if r.accepted then r.used else used
  }

  /** The leaf takes the freed signature, or the one that it would have taken. */
  lemma {:induction false} FirstFreer(ok: Oracle, p: Principal, sds: seq<SignedData>, u: seq<bool>, x: nat)
    requires |sds| <= |u| && x < |u| && u[x]
    ensures var a, b := FirstAccepted(ok, p, sds, u, 0), FirstAccepted(ok, p, sds, u[x := false], 0);
            b == a || (b == x && x < |sds|)
  {
  }

  lemma {:induction false} FreedAt(u: seq<bool>, v: seq<bool>, x: nat)
    requires x < |u| && u[x] && v == u[x := false]
    ensures Freer(u, v)
  {
  }

  /** The marks of the leaf, from the positions that it takes without and with the freed signature. */
  lemma {:induction false} TakenFreer(u: seq<bool>, x: nat, a: nat, b: nat, count: nat)
    requires count <= |u| && x < |u| && u[x] && a <= count && (a < count ==> !u[a])
    requires b == a || (b == x && x < count)
    ensures var v := u[x := false];
            Freer(if a < count then u[a := true] else u, if b < count then v[b := true] else v)
  {
    var v := u[x := false];
    if b == x {
      assert v[x := true] == u;
      if a < count {
        FreedAt(u[a := true], u, a);
      }
    } else if a < count {
      FreedAt(u[a := true], v[a := true], x);
    } else {
      FreedAt(u, v, x);
    }
  }

  lemma {:induction false} LeafFreer(ok: Oracle, p: Principal, sds: seq<SignedData>, u: seq<bool>, v: seq<bool>)
    requires |sds| <= |u| && Freer(u, v)
    ensures Eval(ok, Leaf(p), sds, u).accepted ==> Eval(ok, Leaf(p), sds, v).accepted
    ensures Freer(Kept(ok, Leaf(p), sds, u), Kept(ok, Leaf(p), sds, v))
  {
    if v != u {
      var x :| 0 <= x < |u| && u[x] && v == u[x := false];
      FirstFreer(ok, p, sds, u, x);
      TakenFreer(u, x, FirstAccepted(ok, p, sds, u, 0), FirstAccepted(ok, p, sds, v, 0), |sds|);
    }
  }

  /** A tally of zero has changed nothing. */
  lemma {:induction false} ZeroTally(ok: Oracle, es: seq<Evaluator>, sds: seq<SignedData>, used: seq<bool>)
    requires |sds| <= |used| && Count(ok, es, sds, used).verified == 0
    ensures Count(ok, es, sds, used).used == used
    decreases |es|
  {
    if es != [] {
      ZeroTally(ok, es[1..], sds, used);
    }
  }

  lemma {:induction false} NoRollbackFreer(ok: Oracle, e: Evaluator, sds: seq<SignedData>, u: seq<bool>, v: seq<bool>)
    requires |sds| <= |u| == |v| && Freer(u, v) && NoRollback(e)
    ensures Eval(ok, e, sds, u).accepted ==> Eval(ok, e, sds, v).accepted
    ensures Freer(Kept(ok, e, sds, u), Kept(ok, e, sds, v))
    decreases e, 1
  {
    match e
    case Leaf(p) => LeafFreer(ok, p, sds, u, v);
    case Gate(n, policies) =>
      CountFreer(ok, policies, sds, u, v);
      KeptTally(ok, n, policies, sds, u);
      KeptTally(ok, n, policies, sds, v);
  }

  lemma {:induction false} KeptTally(ok: Oracle, n: int, es: seq<Evaluator>, sds: seq<SignedData>, used: seq<bool>)
    requires |sds| <= |used| && n <= 1
    ensures Kept(ok, Gate(n, es), sds, used) == Count(ok, es, sds, used).used
  {
    if Count(ok, es, sds, used).verified == 0 {
      ZeroTally(ok, es, sds, used);
    }
  }

  /** Rules that give nothing back count at least as much, and leave at most one signature more. */
  lemma {:induction false} CountFreer(ok: Oracle, es: seq<Evaluator>, sds: seq<SignedData>, u: seq<bool>, v: seq<bool>)
    requires |sds| <= |u| == |v| && Freer(u, v) && forall k :: 0 <= k < |es| ==> NoRollback(es[k])
    ensures Count(ok, es, sds, u).verified <= Count(ok, es, sds, v).verified
    ensures Freer(Count(ok, es, sds, u).used, Count(ok, es, sds, v).used)
    decreases es, 0
  {
    if es != [] {
      NoRollbackFreer(ok, es[0], sds, u, v);
      CountFreer(ok, es[1..], sds, Kept(ok, es[0], sds, u), Kept(ok, es[0], sds, v));
    }
  }

  lemma {:induction false} FirmFreer(ok: Oracle, e: Evaluator, sds: seq<SignedData>, u: seq<bool>, v: seq<bool>)
    requires |sds| <= |u| == |v| && Freer(u, v) && Firm(e)
    requires Eval(ok, e, sds, u).accepted
    ensures Eval(ok, e, sds, v).accepted
    ensures Freer(Eval(ok, e, sds, u).used, Eval(ok, e, sds, v).used)
    decreases e, 1
  {
    if NoRollback(e) {
      NoRollbackFreer(ok, e, sds, u, v);
    } else if forall k :: 0 <= k < |e.policies| ==> NoRollback(e.policies[k]) {
      CountFreer(ok, e.policies, sds, u, v);
    } else {
      AllFirmFreer(ok, e.policies, sds, u, v);
    }
  }

  lemma {:induction false} AllFirmFreer(ok: Oracle, es: seq<Evaluator>, sds: seq<SignedData>, u: seq<bool>, v: seq<bool>)
    requires |sds| <= |u| == |v| && Freer(u, v) && forall k :: 0 <= k < |es| ==> Firm(es[k])
    requires Count(ok, es, sds, u).verified == |es|
    ensures Count(ok, es, sds, v).verified == |es|
    ensures Freer(Count(ok, es, sds, u).used, Count(ok, es, sds, v).used)
    decreases es, 0
  {
    if es != [] {
      FirmFreer(ok, es[0], sds, u, v);
      AllFirmFreer(ok, es[1..], sds, Kept(ok, es[0], sds, u), Kept(ok, es[0], sds, v));
    }
  }

  /** Some rule is verified exactly when some rule accepts what the gate is given. */
  lemma {:induction false} SomeAccepts(ok: Oracle, es: seq<Evaluator>, sds: seq<SignedData>, used: seq<bool>)
    requires |sds| <= |used|
    ensures Count(ok, es, sds, used).verified >= 1 <==> exists k :: 0 <= k < |es| && Eval(ok, es[k], sds, used).accepted
    decreases |es|
  {
    if es != [] && !Eval(ok, es[0], sds, used).accepted {
      SomeAccepts(ok, es[1..], sds, used);
      assert forall k :: 0 < k < |es| ==> es[k] == es[1..][k - 1];
    }
  }

  lemma {:induction false} SteadyFreer(ok: Oracle, e: Evaluator, sds: seq<SignedData>, u: seq<bool>, v: seq<bool>)
    requires |sds| <= |u| == |v| && Freer(u, v) && Steady(e)
    requires Eval(ok, e, sds, u).accepted
    ensures Eval(ok, e, sds, v).accepted
    decreases e, 1
  {
    if Firm(e) {
      FirmFreer(ok, e, sds, u, v);
    } else if e.n <= 1 && forall k :: 0 <= k < |e.policies| ==> Steady(e.policies[k]) {
      if e.n == 1 {
        SomeSteadyFreer(ok, e.policies, sds, u, v);
      }
    } else {
      LastSteadyFreer(ok, e.policies, sds, u, v);
    }
  }

  lemma {:induction false} SomeSteadyFreer(ok: Oracle, es: seq<Evaluator>, sds: seq<SignedData>, u: seq<bool>, v: seq<bool>)
    requires |sds| <= |u| == |v| && Freer(u, v) && forall k :: 0 <= k < |es| ==> Steady(es[k])
    requires Count(ok, es, sds, u).verified >= 1
    ensures Count(ok, es, sds, v).verified >= 1
    decreases es, 0
  {
    SomeAccepts(ok, es, sds, u);
    SomeAccepts(ok, es, sds, v);
    var k :| 0 <= k < |es| && Eval(ok, es[k], sds, u).accepted;
    SteadyFreer(ok, es[k], sds, u, v);
  }

  lemma {:induction false} LastSteadyFreer(ok: Oracle, es: seq<Evaluator>, sds: seq<SignedData>, u: seq<bool>, v: seq<bool>)
    requires |sds| <= |u| == |v| && Freer(u, v)
    requires es != [] && Steady(es[|es| - 1]) && forall k :: 0 <= k < |es| - 1 ==> Firm(es[k])
    requires Count(ok, es, sds, u).verified == |es|
    ensures Count(ok, es, sds, v).verified == |es|
    decreases es, 0
  {
    if |es| == 1 {
      SteadyFreer(ok, es[0], sds, u, v);
    } else {
      FirmFreer(ok, es[0], sds, u, v);
      LastSteadyFreer(ok, es[1..], sds, Kept(ok, es[0], sds, u), Kept(ok, es[0], sds, v));
    }
  }

  /** Evaluation without x is evaluation with x, used from the start. */
  lemma {:induction false} WithoutIsUsed(ok: Oracle, e: Evaluator, sds: seq<SignedData>, count: nat, at: nat, x: SignedData)
    requires |sds| <= count && at <= |sds|
    ensures var u := Insert(NoneUsed(count), at, true);
            && Eval(ok, e, sds, NoneUsed(count)).accepted == Eval(ok, e, Insert(sds, at, x), u).accepted
            && u[at] && u[at := false] == NoneUsed(count + 1)
  {
    EvalSkipsUsed(ok, e, sds, NoneUsed(count), at, x);
    FreedIsNone(count, at);
  }

  /** More signers never make a steady policy reject, whatever its depth. */
  lemma {:induction false} SteadyNeverRevoked(e: Evaluator)
    requires Steady(e)
    ensures NeverRevoked(e)
  {
    forall ok: Oracle, signatureSet, j: nat, x: SignedData |
      j <= |signatureSet| && !HasIdentity(signatureSet, x.identity) && Evaluation(ok, e, signatureSet).accepted
      ensures Evaluation(ok, e, Insert(signatureSet, j, x)).accepted
    {
      DedupInsert(signatureSet, j, x);
      var sds, at := Dedup(signatureSet), |Dedup(signatureSet[..j])|;
      WithoutIsUsed(ok, e, sds, |signatureSet|, at, x);
      SteadyFreer(ok, e, Insert(sds, at, x), Insert(NoneUsed(|signatureSet|), at, true), NoneUsed(|signatureSet| + 1));
    }
  }
}
