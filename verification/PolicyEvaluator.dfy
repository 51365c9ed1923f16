/**
 Evaluation of a compiled policy over a set of signatures: the recursive specification, the
 evaluator that works in place on `used` buffers, and the duplicate removal that precedes it.
 */
module PolicyEvaluator {
  import opened Prelude
  import opened SignaturePolicies

  datatype Outcome = Outcome(accepted: bool, used: seq<bool>)
  datatype Tally = Tally(verified: nat, used: seq<bool>)

  /** `after` keeps every mark of `before`, and adds marks only inside the signature set. */
  ghost predicate Extends(before: seq<bool>, after: seq<bool>, count: nat) {
    && |after| == |before|
    && (forall i :: 0 <= i < |before| && before[i] ==> after[i])
    && (forall i :: count <= i < |before| ==> after[i] == before[i])
  }

  /** The first position at or after `from` whose unused signature satisfies `p`; |sds| if none. */
  function FirstAccepted(ok: Oracle, p: Principal, sds: seq<SignedData>, used: seq<bool>, from: nat): (r: nat)
    requires from <= |sds| <= |used|
    ensures from <= r <= |sds|
    ensures r < |sds| ==> !used[r] && ok(p, sds[r])
    ensures forall j :: from <= j < r ==> used[j] || !ok(p, sds[j])
    decreases |sds| - from
  {
    if from == |sds| then from
    else if !used[from] && ok(p, sds[from]) then from
    else FirstAccepted(ok, p, sds, used, from + 1)
  }

  function Eval(ok: Oracle, e: Evaluator, sds: seq<SignedData>, used: seq<bool>): (r: Outcome)
    requires |sds| <= |used|
    ensures Extends(used, r.used, |sds|)
    decreases e, 1
  {
    match e
    case Leaf(p) =>
      var i := FirstAccepted(ok, p, sds, used, 0);
      if i < |sds| then Outcome(true, used[i := true]) else Outcome(false, used)
    case Gate(n, policies) =>
      var t := Count(ok, policies, sds, used);
      Outcome(t.verified >= n, t.used)
  }

  /** Evaluates the children of a gate in order; only an accepting child's marks are kept. */
  function Count(ok: Oracle, es: seq<Evaluator>, sds: seq<SignedData>, used: seq<bool>): (t: Tally)
    requires |sds| <= |used|
    ensures Extends(used, t.used, |sds|)
    ensures t.verified <= |es|
    decreases es, 0
  {
    if es == [] then Tally(0, used)
    else
      var r := Eval(ok, es[0], sds, used);
      var t := Count(ok, es[1..], sds, if r.accepted then r.used else used);
      Tally(t.verified + (if r.accepted then 1 else 0), t.used)
  }

  /** Children are evaluated one after the other. */
  lemma {:induction false} CountConcat(ok: Oracle, a: seq<Evaluator>, b: seq<Evaluator>, sds: seq<SignedData>, used: seq<bool>)
    requires |sds| <= |used|
    ensures var t := Count(ok, a, sds, used);
            var u := Count(ok, b, sds, t.used);
            Count(ok, a + b, sds, used) == Tally(t.verified + u.verified, u.used)
    decreases |a|
  {
    if a == [] {
      assert a + b == b;
    } else {
      var r := Eval(ok, a[0], sds, used);
      assert (a + b)[1..] == a[1..] + b;
      CountConcat(ok, a[1..], b, sds, if r.accepted then r.used else used);
    }
  }

  lemma {:induction false} RejectedFirst(ok: Oracle, e: Evaluator, es: seq<Evaluator>, sds: seq<SignedData>, used: seq<bool>)
    requires |sds| <= |used| && !Eval(ok, e, sds, used).accepted
    ensures Count(ok, [e] + es, sds, used) == Count(ok, es, sds, used)
  {
    assert ([e] + es)[0] == e && ([e] + es)[1..] == es;
  }

  /** Rules that count alike behind the same rules count alike with them. */
  lemma {:induction false} CountAlike(ok: Oracle, a: seq<Evaluator>, b: seq<Evaluator>, c: seq<Evaluator>,
                                      sds: seq<SignedData>, used: seq<bool>)
    requires |sds| <= |used|
    requires Count(ok, b, sds, Count(ok, a, sds, used).used) == Count(ok, c, sds, Count(ok, a, sds, used).used)
    ensures Count(ok, a + b, sds, used) == Count(ok, a + c, sds, used)
  {
    CountConcat(ok, a, b, sds, used);
    CountConcat(ok, a, c, sds, used);
  }

  /** A child that rejects has no effect on the enclosing gate: it could as well be absent. */
  lemma {:induction false} RejectedChildRollsBack(ok: Oracle, a: seq<Evaluator>, e: Evaluator, b: seq<Evaluator>,
                                                  sds: seq<SignedData>, used: seq<bool>)
    requires |sds| <= |used|
    requires !Eval(ok, e, sds, Count(ok, a, sds, used).used).accepted
    ensures Count(ok, a + ([e] + b), sds, used) == Count(ok, a + b, sds, used)
  {
    RejectedFirst(ok, e, b, sds, Count(ok, a, sds, used).used);
    CountAlike(ok, a, [e] + b, b, sds, used);
  }

  /** But the buffer handed to a rejecting gate may change: here one rule of two is met, and its mark stays. */
  lemma {:induction false} RejectingGateMarks(ok: Oracle, p: Principal, sds: seq<SignedData>, used: seq<bool>)
    requires |sds| <= |used| && FirstAccepted(ok, p, sds, used, 0) < |sds|
    ensures var r := Eval(ok, Gate(2, [Leaf(p)]), sds, used);
            !r.accepted && r.used != used
  {
    var es := [Leaf(p)];
    var i := FirstAccepted(ok, p, sds, used, 0);
    assert es[1..] == [];
    assert Eval(ok, es[0], sds, used) == Outcome(true, used[i := true]);
    assert Count(ok, es, sds, used) == Tally(1, used[i := true]);
    assert used[i := true][i] != used[i];
  }

  /** A gate goes on after its threshold is met: here one rule suffices, and both take their signature. */
  lemma {:induction false} SatisfiedGateGoesOn(ok: Oracle, p: Principal, q: Principal, sds: seq<SignedData>, used: seq<bool>, i: nat, j: nat)
    requires |sds| <= |used| && i == FirstAccepted(ok, p, sds, used, 0) < |sds|
    requires j == FirstAccepted(ok, q, sds, used[i := true], 0) < |sds|
    ensures Eval(ok, Gate(1, [Leaf(p), Leaf(q)]), sds, used) == Outcome(true, used[i := true][j := true])
  {
    var es := [Leaf(p), Leaf(q)];
    assert es[0] == Leaf(p) && es[1..] == [Leaf(q)] && es[1..][1..] == [];
    var next, last := used[i := true], used[i := true][j := true];
    assert Eval(ok, es[0], sds, used) == Outcome(true, next) && Eval(ok, es[1..][0], sds, next) == Outcome(true, last);
    assert Count(ok, es[1..][1..], sds, last) == Tally(0, last);
    assert Count(ok, es[1..], sds, next) == Tally(1, last);
    assert Count(ok, es, sds, used) == Tally(2, last);
  }

  /** copy(dst, src) of two buffers of one length. */
  method CopyInto(dst: array<bool>, src: array<bool>)
    requires dst.Length == src.Length
    modifies dst
    ensures dst[..] == old(src[..])
  {
    ghost var original := src[..];
    for i := 0 to src.Length
      invariant src[..] == original
      invariant dst[..i] == original[..i]
    {
      dst[i] := src[i];
    }
  }

  /**
   The closures built by compile. A gate runs each child on a scratch buffer and copies it back only
   when the child accepts; a rejecting gate may itself leave `used` changed.
   */
  method Run(ok: Oracle, e: Evaluator, sds: seq<SignedData>, used: array<bool>) returns (accepted: bool)
    requires |sds| <= used.Length
    modifies used
    ensures Outcome(accepted, used[..]) == Eval(ok, e, sds, old(used[..]))
    decreases e
  {
    match e
    case Leaf(p) =>
      for i := 0 to |sds|
        invariant used[..] == old(used[..])
        invariant FirstAccepted(ok, p, sds, used[..], 0) == FirstAccepted(ok, p, sds, used[..], i)
      {
        if !used[i] && ok(p, sds[i]) {
          used[i] := true;
          return true;
        }
      }
      return false;
    case Gate(n, policies) =>
      var verified := 0;
      var scratch := new bool[used.Length];
      ghost var total := Count(ok, policies, sds, used[..]);
      for i := 0 to |policies|
        invariant |sds| <= used.Length
        invariant Count(ok, policies[i..], sds, used[..]).verified + verified == total.verified
        invariant Count(ok, policies[i..], sds, used[..]).used == total.used
      {
        ghost var before := used[..];
        CopyInto(scratch, used);
        assert policies[i..][0] == policies[i] && policies[i..][1..] == policies[i + 1..];
        var childAccepts := Run(ok, policies[i], sds, scratch);
        if childAccepts {
          verified := verified + 1;
          CopyInto(used, scratch);
        }
      }
      assert policies[|policies|..] == [];
      return verified >= n;
  }

  predicate HasIdentity(sds: seq<SignedData>, id: Bytes) {
    exists i :: 0 <= i < |sds| && sds[i].identity == id
  }

  lemma {:induction false} HasIdentityAppend(sds: seq<SignedData>, sd: SignedData, id: Bytes)
    ensures HasIdentity(sds + [sd], id) <==> HasIdentity(sds, id) || sd.identity == id
  {
    if sd.identity == id {
      assert (sds + [sd])[|sds|].identity == id;
    } else if HasIdentity(sds, id) {
      var i :| 0 <= i < |sds| && sds[i].identity == id;
      assert (sds + [sd])[i].identity == id;
    }
  }

  /** The signed data kept by deduplicate: each one whose identity occurs for the first time. */
  function Dedup(sds: seq<SignedData>): (r: seq<SignedData>)
    ensures |r| <= |sds|
  {
    if sds == [] then []
    else
      var last := |sds| - 1;
      var kept := Dedup(sds[..last]);
      if HasIdentity(sds[..last], sds[last].identity) then kept else kept + [sds[last]]
  }

  ghost predicate DistinctIdentities(sds: seq<SignedData>) {
    forall i, j :: 0 <= i < j < |sds| ==> sds[i].identity != sds[j].identity
  }

  method Deduplicate(sds: seq<SignedData>) returns (result: seq<SignedData>)
    ensures result == Dedup(sds)
  {
    var ids: set<Bytes> := {};
    result := [];
    for i := 0 to |sds|
      invariant result == Dedup(sds[..i])
      invariant forall id :: id in ids <==> HasIdentity(sds[..i], id)
    {
      assert sds[..i + 1][..i] == sds[..i];
      assert sds[..i + 1] == sds[..i] + [sds[i]];
      forall id { HasIdentityAppend(sds[..i], sds[i], id); }
      if sds[i].identity !in ids {
        result := result + [sds[i]];
        ids := ids + {sds[i].identity};
      }
    }
    assert sds[..|sds|] == sds;
  }

  function NoneUsed(count: nat): (used: seq<bool>)
    ensures |used| == count && forall i :: 0 <= i < count ==> !used[i]
  {
    seq(count, _ => false)
  }

  /** The gate or leaf at the root, run on the deduplicated set with nothing used yet. */
  function Evaluation(ok: Oracle, e: Evaluator, signatureSet: seq<SignedData>): (r: Outcome) {
    Eval(ok, e, Dedup(signatureSet), NoneUsed(|signatureSet|))
  }

  /** policy.Evaluate; `evaluator` is absent on the nil policy. */
  method Evaluate(ok: Oracle, evaluator: Option<Evaluator>, signatureSet: seq<SignedData>) returns (success: bool)
    ensures success <==> evaluator.Some? && Evaluation(ok, evaluator.value, signatureSet).accepted
  {
    if evaluator.None? {
      return false;
    }
    var kept := Deduplicate(signatureSet);
    var used := new bool[|signatureSet|](_ => false);
    assert used[..] == NoneUsed(|signatureSet|);
    success := Run(ok, evaluator.value, kept, used);
  }

  ghost predicate FirstOccurrence(sds: seq<SignedData>, i: nat)
    requires i < |sds|
  {
    forall j :: 0 <= j < i ==> sds[j].identity != sds[i].identity
  }

  /** Deduplication loses no identity and leaves none twice. */
  lemma {:induction false} DedupIdentities(sds: seq<SignedData>)
    ensures forall id :: HasIdentity(Dedup(sds), id) <==> HasIdentity(sds, id)
    ensures DistinctIdentities(Dedup(sds))
  {
    if sds != [] {
      var init, last := sds[..|sds| - 1], sds[|sds| - 1];
      DedupIdentities(init);
      forall id ensures HasIdentity(Dedup(sds), id) <==> HasIdentity(sds, id) {
        assert sds == init + [last];
        HasIdentityAppend(init, last, id);
        HasIdentityAppend(Dedup(init), last, id);
      }
      if !HasIdentity(init, last.identity) {
        assert !HasIdentity(Dedup(init), last.identity);
      }
    }
  }

  /** The positions of the data that deduplication keeps. */
  ghost function KeptAt(sds: seq<SignedData>): (at: seq<nat>) {
    if sds == [] then []
    else
      var last := |sds| - 1;
      var kept := KeptAt(sds[..last]);
      if HasIdentity(sds[..last], sds[last].identity) then kept else kept + [last]
  }

  /** Deduplication keeps exactly the first occurrences, in their order. */
  lemma {:induction false} DedupKeepsFirst(sds: seq<SignedData>)
    ensures |KeptAt(sds)| == |Dedup(sds)|
    ensures forall k :: 0 <= k < |KeptAt(sds)| ==> KeptAt(sds)[k] < |sds|
    ensures forall k :: 0 <= k < |KeptAt(sds)| ==> Dedup(sds)[k] == sds[KeptAt(sds)[k]]
    ensures forall k, l :: 0 <= k < l < |KeptAt(sds)| ==> KeptAt(sds)[k] < KeptAt(sds)[l]
    ensures forall i :: 0 <= i < |sds| ==> (i in KeptAt(sds) <==> FirstOccurrence(sds, i))
  {
    if sds != [] {
      var last := |sds| - 1;
      var init := sds[..last];
      DedupKeepsFirst(init);
      forall i | 0 <= i < |sds| ensures i in KeptAt(sds) <==> FirstOccurrence(sds, i) {
        if i < last {
          assert FirstOccurrence(init, i) <==> FirstOccurrence(sds, i);
        } else {
          assert i !in KeptAt(init);
          if HasIdentity(init, sds[last].identity) {
            var j :| 0 <= j < last && init[j].identity == sds[last].identity;
            assert sds[j].identity == sds[last].identity;
          } else {
            assert forall j :: 0 <= j < last ==> init[j] == sds[j];
          }
        }
      }
    }
  }

  /** Deduplication changes nothing when the identities differ. */
  lemma {:induction false} DistinctIsKept(sds: seq<SignedData>)
    requires DistinctIdentities(sds)
    ensures Dedup(sds) == sds
  {
    if sds != [] {
      var last := |sds| - 1;
      DistinctIsKept(sds[..last]);
    }
  }
}
