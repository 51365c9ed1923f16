/** Which policies can be accepted at all: exactly those with a finite need. */
module PolicySatisfiability {
  import opened SignaturePolicies
  import opened PolicyEvaluator
  import opened PolicySoundness

  /** A signature by anyone satisfies any principal. */
  function Anyone(p: Principal, sd: SignedData): bool {
    true
  }

  function LeafCount(e: Evaluator): nat
    decreases e, 1
  {
    match e
    case Leaf(_) => 1
    case Gate(_, policies) => LeafCountAll(policies)
  }

  function LeafCountAll(es: seq<Evaluator>): nat
    decreases es, 0
  {
    if es == [] then 0 else LeafCount(es[0]) + LeafCountAll(es[1..])
  }

  ghost function Unused(count: nat, used: seq<bool>): set<nat>
    requires count <= |used|
  {
    set i: nat | i < count && !used[i]
  }

  /** How many of the evaluators can be satisfied. */
  function SatisfiableAmong(es: seq<Evaluator>): nat {
    if es == [] then 0 else (if Need(es[0]).Some? then 1 else 0) + SatisfiableAmong(es[1..])
  }

  lemma {:induction false} CheapestIff(es: seq<Evaluator>, n: int)
    ensures CheapestOf(es, n).Some? <==> SatisfiableAmong(es) >= n
  {
    if n > 0 && es != [] {
      CheapestIff(es[1..], n);
      CheapestIff(es[1..], n - 1);
    }
  }

  /** Offered enough signatures that anyone may give, an evaluator accepts if it can be satisfied at all. */
  lemma {:induction false} EnoughIsAccepted(e: Evaluator, sds: seq<SignedData>, used: seq<bool>)
    requires |sds| <= |used| && |Unused(|sds|, used)| >= LeafCount(e)
    ensures var r := Eval(Anyone, e, sds, used);
            && (r.accepted <==> Need(e).Some?)
            && |Unused(|sds|, r.used)| >= |Unused(|sds|, used)| - LeafCount(e)
    decreases e, 1
  {
    match e
    case Leaf(p) =>
      var i := FirstAccepted(Anyone, p, sds, used, 0);
      var x :| x in Unused(|sds|, used);
      assert Unused(|sds|, used[i := true]) == Unused(|sds|, used) - {i};
    case Gate(n, policies) =>
      EnoughIsCounted(policies, sds, used);
      CheapestIff(policies, n);
  }

  lemma {:induction false} EnoughIsCounted(es: seq<Evaluator>, sds: seq<SignedData>, used: seq<bool>)
    requires |sds| <= |used| && |Unused(|sds|, used)| >= LeafCountAll(es)
    ensures var t := Count(Anyone, es, sds, used);
            && t.verified == SatisfiableAmong(es)
            && |Unused(|sds|, t.used)| >= |Unused(|sds|, used)| - LeafCountAll(es)
    decreases es, 0
  {
    if es != [] {
      EnoughIsAccepted(es[0], sds, used);
      var r := Eval(Anyone, es[0], sds, used);
      EnoughIsCounted(es[1..], sds, if r.accepted then r.used else used);
    }
  }

  /** n signatures by different identities. */
  function Crowd(n: nat): (sds: seq<SignedData>)
    ensures |sds| == n
    ensures DistinctIdentities(sds)
  {
    var sds := seq(n, i requires 0 <= i < n => SignedData([], seq(i, _ => 0), []));
    assert forall i :: 0 <= i < n ==> |sds[i].identity| == i;
    sds
  }

  lemma {:induction false} AllUnused(n: nat)
    ensures |Unused(n, NoneUsed(n))| == n
  {
    if n > 0 {
      AllUnused(n - 1);
      assert Unused(n, NoneUsed(n)) == Unused(n - 1, NoneUsed(n - 1)) + {n - 1};
    }
  }

  /** The evaluator accepts some signature set, for some reading of its principals. */
  ghost predicate CanAccept(e: Evaluator) {
    exists ok, signatureSet :: Evaluation(ok, e, signatureSet).accepted
  }

  lemma {:induction false} CrowdIsAccepted(e: Evaluator)
    requires Need(e).Some?
    ensures Evaluation(Anyone, e, Crowd(LeafCount(e))).accepted
  {
    var n := LeafCount(e);
    AllUnused(n);
    DistinctIsKept(Crowd(n));
    EnoughIsAccepted(e, Crowd(n), NoneUsed(n));
  }

  lemma {:induction false} SatisfiableIff(e: Evaluator)
    ensures CanAccept(e) <==> Need(e).Some?
  {
    if CanAccept(e) {
      var ok, signatureSet :| Evaluation(ok, e, signatureSet).accepted;
      var w := ThresholdLowerBound(ok, e, Dedup(signatureSet), NoneUsed(|signatureSet|));
    }
    if Need(e).Some? {
      CrowdIsAccepted(e);
    }
  }
}
