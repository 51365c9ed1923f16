/** Nested And, and nested Or, decide like the flat gate over all their leaves. */
module PolicyNesting {
  import opened SignaturePolicies
  import opened PolicyEvaluator
  import opened PolicyRevocation

  predicate AndTree(e: Evaluator) {
    e.Leaf? || (e.n == |e.policies| && forall k :: 0 <= k < |e.policies| ==> AndTree(e.policies[k]))
  }

  predicate OrTree(e: Evaluator) {
    e.Leaf? || (e.n == 1 && forall k :: 0 <= k < |e.policies| ==> OrTree(e.policies[k]))
  }

  function Leaves(e: Evaluator): seq<Evaluator>
    decreases e, 1
  {
    match e
    case Leaf(_) => [e]
    case Gate(_, policies) => LeavesAll(policies)
  }

  function LeavesAll(es: seq<Evaluator>): seq<Evaluator>
    decreases es, 0
  {
    if es == [] then [] else Leaves(es[0]) + LeavesAll(es[1..])
  }

  lemma {:induction false} OneLeaf(ok: Oracle, e: Evaluator, sds: seq<SignedData>, used: seq<bool>)
    requires |sds| <= |used|
    ensures Count(ok, [e], sds, used) == Tally(if Eval(ok, e, sds, used).accepted then 1 else 0, Kept(ok, e, sds, used))
  {
    assert [e][1..] == [];
  }

  /** An And of Ands is accepted exactly if all leaves are, one after the other, and uses the same signatures. */
  lemma {:induction false} AndFlat(ok: Oracle, e: Evaluator, sds: seq<SignedData>, used: seq<bool>)
    requires AndTree(e) && |sds| <= |used|
    ensures Eval(ok, e, sds, used).accepted <==> Count(ok, Leaves(e), sds, used).verified == |Leaves(e)|
    ensures Eval(ok, e, sds, used).accepted ==> Eval(ok, e, sds, used).used == Count(ok, Leaves(e), sds, used).used
    decreases e, 1
  {
    match e
    case Leaf(_) => OneLeaf(ok, e, sds, used);
    case Gate(_, policies) => AndFlatAll(ok, policies, sds, used);
  }

  lemma {:induction false} AndFlatAll(ok: Oracle, es: seq<Evaluator>, sds: seq<SignedData>, used: seq<bool>)
    requires (forall k :: 0 <= k < |es| ==> AndTree(es[k])) && |sds| <= |used|
    ensures Count(ok, es, sds, used).verified == |es| <==> Count(ok, LeavesAll(es), sds, used).verified == |LeavesAll(es)|
    ensures Count(ok, es, sds, used).verified == |es| ==> Count(ok, es, sds, used).used == Count(ok, LeavesAll(es), sds, used).used
    decreases es, 0
  {
    if es != [] {
      AndFlat(ok, es[0], sds, used);
      CountConcat(ok, Leaves(es[0]), LeavesAll(es[1..]), sds, used);
      if Eval(ok, es[0], sds, used).accepted {
        AndFlatAll(ok, es[1..], sds, Eval(ok, es[0], sds, used).used);
      }
    }
  }

  /** An Or of Ors is accepted exactly if some leaf is, and uses the same signatures. */
  lemma {:induction false} OrFlat(ok: Oracle, e: Evaluator, sds: seq<SignedData>, used: seq<bool>)
    requires OrTree(e) && |sds| <= |used|
    ensures Eval(ok, e, sds, used).accepted <==> Count(ok, Leaves(e), sds, used).verified >= 1
    ensures Kept(ok, e, sds, used) == Count(ok, Leaves(e), sds, used).used
    decreases e, 1
  {
    match e
    case Leaf(_) => OneLeaf(ok, e, sds, used);
    case Gate(n, policies) =>
      OrFlatAll(ok, policies, sds, used);
      KeptTally(ok, n, policies, sds, used);
  }

  lemma {:induction false} OrFlatAll(ok: Oracle, es: seq<Evaluator>, sds: seq<SignedData>, used: seq<bool>)
    requires (forall k :: 0 <= k < |es| ==> OrTree(es[k])) && |sds| <= |used|
    ensures Count(ok, es, sds, used).verified >= 1 <==> Count(ok, LeavesAll(es), sds, used).verified >= 1
    ensures Count(ok, es, sds, used).used == Count(ok, LeavesAll(es), sds, used).used
    decreases es, 0
  {
    if es != [] {
      OrFlat(ok, es[0], sds, used);
      CountConcat(ok, Leaves(es[0]), LeavesAll(es[1..]), sds, used);
      OrFlatAll(ok, es[1..], sds, Kept(ok, es[0], sds, used));
    }
  }

  /** Nesting And, or Or, in itself changes no decision. */
  lemma {:induction false} NestingIsFlat(ok: Oracle, e: Evaluator, signatureSet: seq<SignedData>)
    ensures AndTree(e) ==> Evaluation(ok, e, signatureSet).accepted ==
                           Evaluation(ok, Gate(|Leaves(e)|, Leaves(e)), signatureSet).accepted
    ensures OrTree(e) ==> Evaluation(ok, e, signatureSet).accepted ==
                          Evaluation(ok, Gate(1, Leaves(e)), signatureSet).accepted
  {
    var sds, used := Dedup(signatureSet), NoneUsed(|signatureSet|);
    if AndTree(e) {
      AndFlat(ok, e, sds, used);
    }
    if OrTree(e) {
      OrFlat(ok, e, sds, used);
    }
  }
}
