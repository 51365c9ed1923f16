/**
 What an accepting evaluation proves: a part of the policy tree in which every kept gate has enough
 kept children, and whose leaves are signed by pairwise different identities.
 */
module PolicySoundness {
  import opened Prelude
  import opened SignaturePolicies
  import opened PolicyEvaluator

  /** The kept part of a policy: the signature that answers a leaf, the kept children of a gate. */
  datatype Witness = Signer(index: nat) | Kept(children: seq<Option<Witness>>)

  /** The witness justifies the policy: the declarative meaning of a signature policy. */
  predicate Satisfies(ok: Oracle, policy: SignaturePolicy, identities: seq<Principal>,
                      sds: seq<SignedData>, w: Witness)
    decreases policy
  {
    match (policy, w)
    case (SignedBy(p), Signer(i)) =>
      0 <= p < |identities| && i < |sds| && ok(identities[p], sds[i])
    case (NOutOf(n, rules), Kept(children)) =>
      && |children| == |rules|
      && CountSome(children) >= n
      && forall k :: 0 <= k < |rules| && children[k].Some? ==>
           Satisfies(ok, rules[k], identities, sds, children[k].value)
    case _ => false
  }

  /** The same for the compiled form. */
  predicate Supports(ok: Oracle, e: Evaluator, sds: seq<SignedData>, w: Witness)
    decreases e
  {
    match (e, w)
    case (Leaf(p), Signer(i)) => i < |sds| && ok(p, sds[i])
    case (Gate(n, policies), Kept(children)) =>
      CountSome(children) >= n && SupportsAll(ok, policies, sds, children)
    case _ => false
  }

  predicate SupportsAll(ok: Oracle, es: seq<Evaluator>, sds: seq<SignedData>, ws: seq<Option<Witness>>)
    decreases es
  {
    && |ws| == |es|
    && forall k :: 0 <= k < |es| && ws[k].Some? ==> Supports(ok, es[k], sds, ws[k].value)
  }

  /** The signature set has some witness; its signers may repeat. */
  ghost predicate HasWitness(ok: Oracle, e: Evaluator, sds: seq<SignedData>) {
    exists w :: Supports(ok, e, sds, w)
  }

  /** The signatures at the leaves of a witness, left to right. */
  function Signers(w: Witness): seq<nat>
    decreases w, 1
  {
    match w
    case Signer(i) => [i]
    case Kept(children) => SignersAll(children)
  }

  function SignersAll(ws: seq<Option<Witness>>): seq<nat>
    decreases ws, 0
  {
    if ws == [] then []
    else
      var rest := SignersAll(ws[1..]);
      if ws[0].None? then rest
      else
        assert ws decreases to ws[0];
        Signers(ws[0].value) + rest
  }

  /** `marks` lists, without repetition, exactly the marks that `after` has over `before`. */
  ghost predicate NewMarks(before: seq<bool>, after: seq<bool>, marks: seq<nat>) {
    && |before| == |after|
    && Distinct(marks)
    && forall i :: i in marks <==> 0 <= i < |before| && after[i] && !before[i]
  }

  lemma {:induction false} NewMarksJoin(a: seq<bool>, b: seq<bool>, c: seq<bool>, s: seq<nat>, t: seq<nat>)
    requires NewMarks(a, b, s) && NewMarks(b, c, t)
    requires forall i :: 0 <= i < |a| && a[i] ==> b[i]
    requires forall i :: 0 <= i < |b| && b[i] ==> c[i]
    ensures NewMarks(a, c, s + t)
  {
    forall i, j | 0 <= i < j < |s + t| ensures (s + t)[i] != (s + t)[j] {
      if i < |s| <= j {
        assert s[i] in s && t[j - |s|] in t;
      }
    }
    forall i ensures i in s + t <==> i in s || i in t {}
  }

  /** An accepting evaluation has a witness whose signers are exactly the newly used signatures. */
  lemma {:induction false} EvalSound(ok: Oracle, e: Evaluator, sds: seq<SignedData>, used: seq<bool>)
    returns (w: Witness)
    requires |sds| <= |used|
    requires Eval(ok, e, sds, used).accepted
    ensures Supports(ok, e, sds, w)
    ensures NewMarks(used, Eval(ok, e, sds, used).used, Signers(w))
    decreases e, 1
  {
    match e
    case Leaf(p) =>
      w := Signer(FirstAccepted(ok, p, sds, used, 0));
    case Gate(n, policies) =>
      var ws := CountSound(ok, policies, sds, used);
      w := Kept(ws);
  }

  /** The accepting children of a gate have witnesses, whose signers are the newly used signatures. */
  lemma {:induction false} CountSound(ok: Oracle, es: seq<Evaluator>, sds: seq<SignedData>, used: seq<bool>)
    returns (ws: seq<Option<Witness>>)
    requires |sds| <= |used|
    ensures SupportsAll(ok, es, sds, ws)
    ensures CountSome(ws) == Count(ok, es, sds, used).verified
    ensures NewMarks(used, Count(ok, es, sds, used).used, SignersAll(ws))
    decreases es, 0
  {
    if es == [] {
      ws := [];
    } else {
      var r := Eval(ok, es[0], sds, used);
      var next := if r.accepted then r.used else used;
      var rest := CountSound(ok, es[1..], sds, next);
      if r.accepted {
        var w := EvalSound(ok, es[0], sds, used);
        ws := [Some(w)] + rest;
        assert ws[1..] == rest;
        NewMarksJoin(used, next, Count(ok, es, sds, used).used, Signers(w), SignersAll(rest));
      } else {
        ws := [None] + rest;
        assert ws[1..] == rest;
        assert SignersAll(ws) == SignersAll(rest);
      }
    }
  }

  /** Compilation preserves meaning: policy and evaluator have the same witnesses. */
  lemma {:induction false} CompilePreservesMeaning(ok: Oracle, policy: SignaturePolicy,
                                                   identities: seq<Principal>, e: Evaluator,
                                                   sds: seq<SignedData>, w: Witness)
    requires Mirrors(policy, identities, e)
    ensures Satisfies(ok, policy, identities, sds, w) <==> Supports(ok, e, sds, w)
    decreases policy
  {
    if policy.NOutOf? && w.Kept? && |w.children| == |policy.rules| {
      forall k | 0 <= k < |policy.rules| && w.children[k].Some?
        ensures Satisfies(ok, policy.rules[k], identities, sds, w.children[k].value) <==>
                Supports(ok, e.policies[k], sds, w.children[k].value)
      {
        CompilePreservesMeaning(ok, policy.rules[k], identities, e.policies[k], sds, w.children[k].value);
      }
    }
  }

  /** Every signer of a supporting witness is a position of the signature set. */
  lemma {:induction false} SignersInRange(ok: Oracle, e: Evaluator, sds: seq<SignedData>, w: Witness)
    requires Supports(ok, e, sds, w)
    ensures forall i :: i in Signers(w) ==> i < |sds|
    decreases e, 1
  {
    if e.Gate? {
      SignersAllInRange(ok, e.policies, sds, w.children);
    }
  }

  lemma {:induction false} SignersAllInRange(ok: Oracle, es: seq<Evaluator>, sds: seq<SignedData>,
                                             ws: seq<Option<Witness>>)
    requires SupportsAll(ok, es, sds, ws)
    ensures forall i :: i in SignersAll(ws) ==> i < |sds|
    decreases es, 0
  {
    if es != [] {
      if ws[0].Some? {
        SignersInRange(ok, es[0], sds, ws[0].value);
      }
      SignersAllInRange(ok, es[1..], sds, ws[1..]);
    }
  }

  /**
   Soundness of policy.Evaluate: when it accepts, the policy has a witness over the signature set
   itself, whose leaves are signed by pairwise different identities.
   */
  lemma {:induction false} EvaluateSound(ok: Oracle, envelope: Envelope, signatureSet: seq<SignedData>) returns (w: Witness)
    requires NewPolicy(Some(envelope)).Ok?
    requires Evaluation(ok, NewPolicy(Some(envelope)).value, signatureSet).accepted
    ensures Satisfies(ok, envelope.rule, envelope.identities, Dedup(signatureSet), w)
    ensures forall j :: 0 <= j < |Signers(w)| ==> Signers(w)[j] < |Dedup(signatureSet)|
    ensures forall j :: 0 <= j < |Signers(w)| ==> Dedup(signatureSet)[Signers(w)[j]] in signatureSet
    ensures forall j, k :: 0 <= j < k < |Signers(w)| ==>
              Dedup(signatureSet)[Signers(w)[j]].identity != Dedup(signatureSet)[Signers(w)[k]].identity
  {
    var e := NewPolicy(Some(envelope)).value;
    w := EvalSound(ok, e, Dedup(signatureSet), NoneUsed(|signatureSet|));
    CompilePreservesMeaning(ok, envelope.rule, envelope.identities, e, Dedup(signatureSet), w);
    SignersInRange(ok, e, Dedup(signatureSet), w);
    KeptSigners(signatureSet, Signers(w));
  }

  /** Different positions of the deduplicated set hold different identities, all from the original set. */
  lemma {:induction false} KeptSigners(signatureSet: seq<SignedData>, at: seq<nat>)
    requires Distinct(at) && forall i :: i in at ==> i < |Dedup(signatureSet)|
    ensures forall j :: 0 <= j < |at| ==> at[j] < |Dedup(signatureSet)|
    ensures forall j :: 0 <= j < |at| ==> Dedup(signatureSet)[at[j]] in signatureSet
    ensures forall j, k :: 0 <= j < k < |at| ==>
              Dedup(signatureSet)[at[j]].identity != Dedup(signatureSet)[at[k]].identity
  {
    DedupIdentities(signatureSet);
    DedupKeepsFirst(signatureSet);
    forall j | 0 <= j < |at| ensures at[j] < |Dedup(signatureSet)| {
      assert at[j] in at;
    }
  }

  // ---------------------------------------------------------------------------------------------
  // How many signatures a policy takes at the least.

  /** A witness shape: like Supports, whatever the signatures. */
  predicate Fits(e: Evaluator, w: Witness)
    decreases e
  {
    match (e, w)
    case (Leaf(_), Signer(_)) => true
    case (Gate(n, policies), Kept(children)) => CountSome(children) >= n && FitsAll(policies, children)
    case _ => false
  }

  predicate FitsAll(es: seq<Evaluator>, ws: seq<Option<Witness>>)
    decreases es
  {
    |ws| == |es| && forall k :: 0 <= k < |es| && ws[k].Some? ==> Fits(es[k], ws[k].value)
  }

  lemma {:induction false} SupportsFits(ok: Oracle, e: Evaluator, sds: seq<SignedData>, w: Witness)
    requires Supports(ok, e, sds, w)
    ensures Fits(e, w)
    decreases e
  {
    if e.Gate? {
      forall k | 0 <= k < |e.policies| && w.children[k].Some?
        ensures Fits(e.policies[k], w.children[k].value)
      {
        SupportsFits(ok, e.policies[k], sds, w.children[k].value);
      }
    }
  }

  function Cheaper(a: Option<nat>, b: Option<nat>): Option<nat> {
    if a.None? then b else if b.None? then a else if a.value <= b.value then a else b
  }

  function Plus(a: Option<nat>, b: Option<nat>): Option<nat> {
    if a.None? || b.None? then None else Some(a.value + b.value)
  }

  /** One per leaf; a gate needs the sum of its n smallest needs; None when it cannot be met. */
  function Need(e: Evaluator): Option<nat>
    decreases e, 1
  {
    match e
    case Leaf(_) => Some(1)
    case Gate(n, policies) => CheapestOf(policies, n)
  }

  /** The least sum of needs over all ways of picking n of the evaluators. */
  function CheapestOf(es: seq<Evaluator>, n: int): Option<nat>
    decreases es, 0
  {
    if n <= 0 then Some(0)
    else if es == [] then None
    else Cheaper(CheapestOf(es[1..], n), Plus(Need(es[0]), CheapestOf(es[1..], n - 1)))
  }

  /** No witness of a policy has fewer signers than Need, and an unsatisfiable policy has none. */
  lemma {:induction false} NeedIsLowerBound(e: Evaluator, w: Witness)
    requires Fits(e, w)
    ensures Need(e).Some? && |Signers(w)| >= Need(e).value
    decreases e, 1
  {
    if e.Gate? {
      CheapestIsLowerBound(e.policies, w.children, e.n);
    }
  }

  lemma {:induction false} CheapestIsLowerBound(es: seq<Evaluator>, ws: seq<Option<Witness>>, n: int)
    requires FitsAll(es, ws) && CountSome(ws) >= n
    ensures CheapestOf(es, n).Some? && |SignersAll(ws)| >= CheapestOf(es, n).value
    decreases es, 0
  {
    if n > 0 {
      if ws[0].Some? {
        NeedIsLowerBound(es[0], ws[0].value);
        CheapestIsLowerBound(es[1..], ws[1..], n - 1);
      } else {
        CheapestIsLowerBound(es[1..], ws[1..], n);
      }
    }
  }

  /** The bound is met: a satisfiable policy has a witness shape with exactly Need leaves. */
  lemma {:induction false} NeedIsAttained(e: Evaluator) returns (w: Witness)
    requires Need(e).Some?
    ensures Fits(e, w) && |Signers(w)| == Need(e).value
    decreases e, 1
  {
    match e
    case Leaf(_) => w := Signer(0);
    case Gate(n, policies) =>
      var ws := CheapestIsAttained(policies, n);
      w := Kept(ws);
  }

  lemma {:induction false} CheapestIsAttained(es: seq<Evaluator>, n: int) returns (ws: seq<Option<Witness>>)
    requires CheapestOf(es, n).Some?
    ensures FitsAll(es, ws) && CountSome(ws) >= n
    ensures |SignersAll(ws)| == CheapestOf(es, n).value
    decreases es, 0
  {
    if es == [] {
      ws := [];
    } else if n <= 0 || CheapestOf(es, n) == CheapestOf(es[1..], n) {
      var rest := CheapestIsAttained(es[1..], n);
      ws := [None] + rest;
      assert ws[1..] == rest;
      assert SignersAll(ws) == SignersAll(rest);
    } else {
      var first := NeedIsAttained(es[0]);
      var rest := CheapestIsAttained(es[1..], n - 1);
      ws := [Some(first)] + rest;
      assert ws[1..] == rest;
    }
  }

  /** The marks an evaluation adds. */
  ghost function NewlyUsed(before: seq<bool>, after: seq<bool>): set<nat>
    requires |before| == |after|
  {
    set i: nat | i < |before| && after[i] && !before[i]
  }

  /** Acceptance costs at least Need signatures, one for each leaf that was committed. */
  lemma {:induction false} ThresholdLowerBound(ok: Oracle, e: Evaluator, sds: seq<SignedData>, used: seq<bool>) returns (w: Witness)
    requires |sds| <= |used|
    requires Eval(ok, e, sds, used).accepted
    ensures Supports(ok, e, sds, w)
    ensures |NewlyUsed(used, Eval(ok, e, sds, used).used)| == |Signers(w)|
    ensures Need(e).Some? && |NewlyUsed(used, Eval(ok, e, sds, used).used)| >= Need(e).value
  {
    w := EvalSound(ok, e, sds, used);
    SupportsFits(ok, e, sds, w);
    NeedIsLowerBound(e, w);
    DistinctSize(Signers(w));
    assert NewlyUsed(used, Eval(ok, e, sds, used).used) == Elements(Signers(w));
  }

  /** Every signer of a supporting witness was accepted for some principal. */
  lemma {:induction false} SignersAccepted(ok: Oracle, e: Evaluator, sds: seq<SignedData>, w: Witness, i: nat)
    requires Supports(ok, e, sds, w) && i in Signers(w)
    ensures i < |sds| && exists p :: ok(p, sds[i])
    decreases e, 1
  {
    if e.Gate? {
      SignersAllAccepted(ok, e.policies, sds, w.children, i);
    }
  }

  lemma {:induction false} SignersAllAccepted(ok: Oracle, es: seq<Evaluator>, sds: seq<SignedData>,
                                              ws: seq<Option<Witness>>, i: nat)
    requires SupportsAll(ok, es, sds, ws) && i in SignersAll(ws)
    ensures i < |sds| && exists p :: ok(p, sds[i])
    decreases es, 0
  {
    if ws[0].Some? && i in Signers(ws[0].value) {
      SignersAccepted(ok, es[0], sds, ws[0].value, i);
    } else {
      SignersAllAccepted(ok, es[1..], sds, ws[1..], i);
    }
  }

  /** An accepted signature set holds at least Need data, by different identities, each accepted by some leaf. */
  lemma {:induction false} AcceptedSigners(ok: Oracle, e: Evaluator, signatureSet: seq<SignedData>) returns (signers: seq<SignedData>)
    requires Evaluation(ok, e, signatureSet).accepted
    ensures Need(e).Some? && |signers| >= Need(e).value
    ensures DistinctIdentities(signers)
    ensures forall sd :: sd in signers ==> sd in signatureSet && exists p :: ok(p, sd)
  {
    var sds := Dedup(signatureSet);
    var w := EvalSound(ok, e, sds, NoneUsed(|signatureSet|));
    SupportsFits(ok, e, sds, w);
    NeedIsLowerBound(e, w);
    SignersInRange(ok, e, sds, w);
    var at := Signers(w);
    KeptSigners(signatureSet, at);
    forall k | 0 <= k < |at| ensures at[k] < |sds| && exists p :: ok(p, sds[at[k]]) {
      assert at[k] in at;
      SignersAccepted(ok, e, sds, w, at[k]);
    }
    signers := seq(|at|, k requires 0 <= k < |at| => sds[at[k]]);
  }
}
