/** The ready-made policies of the builder, and what they decide. */
module PolicyBuilder {
  import opened Prelude
  import opened StringOrder
  import opened SignaturePolicies
  import opened PolicyEvaluator
  import opened PolicyFlatGates

  function And(lhs: SignaturePolicy, rhs: SignaturePolicy): SignaturePolicy {
    NOutOf(2, [lhs, rhs])
  }

  /** And of two leaves, compiled, is the gate studied in PolicyFlatGates. */
  lemma {:induction false} AndCompiles(i: int, j: int, identities: seq<Principal>)
    requires 0 <= i < |identities| && 0 <= j < |identities|
    ensures Compile(And(SignedBy(i), SignedBy(j)), identities) == Ok(Both(identities[i], identities[j]))
  {
    var policy := And(SignedBy(i), SignedBy(j));
    assert WellFormed(policy, |identities|);
    var both := Both(identities[i], identities[j]);
    assert Mirrors(policy, identities, both);
    MirrorsIsFunctional(policy, identities, Compile(policy, identities).value, both);
  }

  /** One signature by the given role of any of the MSPs, in the order listed. */
  function AnyOfRole(role: RoleType, ids: seq<string>): Envelope {
    Envelope(0,
             NOutOf(1, seq(|ids|, i => SignedBy(i))),
             seq(|ids|, i requires 0 <= i < |ids| => RolePrincipal(role, ids[i])))
  }

  method SortStrings(ids: array<string>)
    modifies ids
    ensures ids[..] == Sorted(old(ids[..]))
  {
    SortedCorrect(ids[..]);
    var sorted := Sorted(ids[..]);
    assert |multiset(sorted)| == |multiset(ids[..])|;
    forall i | 0 <= i < ids.Length { ids[i] := sorted[i]; }
  }

  /** signedByAnyOfGivenRole: sorts its argument in place, then lists a principal and a leaf for each. */
  method SignedByAnyOfGivenRole(role: RoleType, ids: array<string>) returns (p: Envelope)
    modifies ids
    ensures ids[..] == Sorted(old(ids[..]))
    ensures p == AnyOfRole(role, ids[..])
  {
    SortStrings(ids);
    var principals: seq<Principal> := [];
    var sigspolicy: seq<SignaturePolicy> := [];
    for i := 0 to ids.Length
      invariant |principals| == i && |sigspolicy| == i
      invariant forall k :: 0 <= k < i ==> principals[k] == RolePrincipal(role, ids[k])
      invariant forall k :: 0 <= k < i ==> sigspolicy[k] == SignedBy(k)
    {
      principals := principals + [RolePrincipal(role, ids[i])];
      sigspolicy := sigspolicy + [SignedBy(i)];
    }
    p := Envelope(0, NOutOf(1, sigspolicy), principals);
    assert sigspolicy == AnyOfRole(role, ids[..]).rule.rules;
    assert principals == AnyOfRole(role, ids[..]).identities;
  }

  /** A flat gate verifies some rule exactly when some leaf has an unused signature. */
  lemma {:induction false} SomeLeafAnswered(ok: Oracle, es: seq<Evaluator>, sds: seq<SignedData>, used: seq<bool>)
    requires Flat(es) && |sds| <= |used|
    ensures Count(ok, es, sds, used).verified >= 1 <==>
            exists k, i :: 0 <= k < |es| && 0 <= i < |sds| && !used[i] && ok(es[k].principal, sds[i])
  {
    if es != [] {
      var first := FirstAccepted(ok, es[0].principal, sds, used, 0);
      if first == |sds| {
        SomeLeafAnswered(ok, es[1..], sds, used);
        assert forall k :: 0 < k < |es| ==> es[k] == es[1..][k - 1];
      }
    }
  }

  lemma {:induction false} AnyOfRoleCompiles(role: RoleType, ids: seq<string>)
    ensures NewPolicy(Some(AnyOfRole(role, ids))).Ok?
    ensures var e := NewPolicy(Some(AnyOfRole(role, ids))).value;
            e.Gate? && e.n == 1 && |e.policies| == |ids| &&
            forall k :: 0 <= k < |ids| ==> e.policies[k] == Leaf(RolePrincipal(role, ids[k]))
  {
    var env := AnyOfRole(role, ids);
    assert WellFormed(env.rule, |env.identities|);
    var e := NewPolicy(Some(env)).value;
    forall k | 0 <= k < |ids| ensures e.policies[k] == Leaf(RolePrincipal(role, ids[k])) {
      assert Mirrors(env.rule.rules[k], env.identities, e.policies[k]);
    }
  }

  /** The signature set holds a datum by the given role of one of the MSPs. */
  ghost predicate SomeRoleSigned(ok: Oracle, role: RoleType, ids: seq<string>, sds: seq<SignedData>) {
    exists k, i :: 0 <= k < |ids| && 0 <= i < |sds| && ok(RolePrincipal(role, ids[k]), sds[i])
  }

  /** The any-of-role policy compiles, and accepts exactly when an identity of one of the MSPs has signed. */
  lemma {:induction false} AnyOfRoleExact(ok: Oracle, role: RoleType, ids: seq<string>, signatureSet: seq<SignedData>)
    ensures NewPolicy(Some(AnyOfRole(role, ids))).Ok?
    ensures Evaluation(ok, NewPolicy(Some(AnyOfRole(role, ids))).value, signatureSet).accepted <==>
            SomeRoleSigned(ok, role, ids, Dedup(signatureSet))
  {
    AnyOfRoleCompiles(role, ids);
    var es := NewPolicy(Some(AnyOfRole(role, ids))).value.policies;
    var sds, used := Dedup(signatureSet), NoneUsed(|signatureSet|);
    SomeLeafAnswered(ok, es, sds, used);
    if SomeRoleSigned(ok, role, ids, sds) {
      var k, i :| 0 <= k < |ids| && 0 <= i < |sds| && ok(RolePrincipal(role, ids[k]), sds[i]);
      assert ok(es[k].principal, sds[i]);
    }
  }

  /** Sorting the MSP identifiers first does not change the decision. */
  lemma {:induction false} SortingIsImmaterial(ok: Oracle, role: RoleType, ids: seq<string>, sds: seq<SignedData>)
    ensures SomeRoleSigned(ok, role, Sorted(ids), sds) <==> SomeRoleSigned(ok, role, ids, sds)
  {
    SortedCorrect(ids);
    var sorted := Sorted(ids);
    if SomeRoleSigned(ok, role, ids, sds) {
      var k, i :| 0 <= k < |ids| && 0 <= i < |sds| && ok(RolePrincipal(role, ids[k]), sds[i]);
      assert ids[k] in multiset(sorted);
      var l :| 0 <= l < |sorted| && sorted[l] == ids[k];
    }
    if SomeRoleSigned(ok, role, sorted, sds) {
      var k, i :| 0 <= k < |sorted| && 0 <= i < |sds| && ok(RolePrincipal(role, sorted[k]), sds[i]);
      assert sorted[k] in multiset(ids);
      var l :| 0 <= l < |ids| && ids[l] == sorted[k];
    }
  }

  // ---------------------------------------------------------------------------------------------
  // Where nested policies fall short.

  function Two(n: int, a: Evaluator, b: Evaluator): Evaluator {
    Gate(n, [a, b])
  }

  /** A gate of two rules, one step after the other. */
  lemma {:induction false} EvalTwo(ok: Oracle, n: int, a: Evaluator, b: Evaluator, sds: seq<SignedData>,
                                   used: seq<bool>, r: Outcome, next: seq<bool>, q: Outcome)
    requires |sds| <= |used|
    requires r == Eval(ok, a, sds, used) && next == (if r.accepted then r.used else used)
    requires q == Eval(ok, b, sds, next)
    ensures Eval(ok, Two(n, a, b), sds, used) ==
            Outcome((if r.accepted then 1 else 0) + (if q.accepted then 1 else 0) >= n,
                    if q.accepted then q.used else next)
  {
    var es := [a, b];
    assert es[0] == a && es[1..] == [b];
    assert Count(ok, es[1..][1..], sds, if q.accepted then q.used else next).verified == 0;
    assert Count(ok, es[1..], sds, next).verified == if q.accepted then 1 else 0;
  }

  /** The only datum of the set that answers p is at position i; |sds| stands for none. */
  ghost predicate OnlyAt(ok: Oracle, p: Principal, sds: seq<SignedData>, i: nat) {
    && i <= |sds|
    && forall j :: 0 <= j < |sds| ==> (ok(p, sds[j]) <==> j == i)
  }

  lemma {:induction false} LeafTakes(ok: Oracle, p: Principal, sds: seq<SignedData>, used: seq<bool>, i: nat)
    requires |sds| <= |used| && OnlyAt(ok, p, sds, i)
    ensures Eval(ok, Leaf(p), sds, used) ==
            if i < |sds| && !used[i] then Outcome(true, used[i := true]) else Outcome(false, used)
  {
  }

  /** ((p and q) or r) and q. */
  function Nesting(p: Principal, q: Principal, r: Principal): Evaluator {
    Two(2, Two(1, Two(2, Leaf(p), Leaf(q)), Leaf(r)), Leaf(q))
  }

  /** With nobody for p, the signature for q is left for the last leaf. */
  lemma {:induction false} NestedAccepts(ok: Oracle, p: Principal, q: Principal, r: Principal,
                                         sds: seq<SignedData>, used: seq<bool>)
    requires |sds| == |used| == 2 && !used[0] && !used[1]
    requires OnlyAt(ok, p, sds, 2) && OnlyAt(ok, q, sds, 0) && OnlyAt(ok, r, sds, 1)
    ensures Eval(ok, Nesting(p, q, r), sds, used).accepted
  {
    var u := used[1 := true];
    LeafTakes(ok, p, sds, used, 2);
    LeafTakes(ok, q, sds, used, 0);
    var inner := Two(2, Leaf(p), Leaf(q));
    EvalTwo(ok, 2, Leaf(p), Leaf(q), sds, used, Outcome(false, used), used, Outcome(true, used[0 := true]));
    LeafTakes(ok, r, sds, used, 1);
    EvalTwo(ok, 1, inner, Leaf(r), sds, used, Outcome(false, used[0 := true]), used, Outcome(true, u));
    LeafTakes(ok, q, sds, u, 0);
    EvalTwo(ok, 2, Two(1, inner, Leaf(r)), Leaf(q), sds, used, Outcome(true, u), u, Outcome(true, u[0 := true]));
  }

  /** With somebody for p, it is used up by the first conjunction. */
  lemma {:induction false} NestedRejects(ok: Oracle, p: Principal, q: Principal, r: Principal,
                                         sds: seq<SignedData>, used: seq<bool>)
    requires |sds| == |used| == 3 && !used[0] && !used[1] && !used[2]
    requires OnlyAt(ok, p, sds, 0) && OnlyAt(ok, q, sds, 1) && OnlyAt(ok, r, sds, 2)
    ensures !Eval(ok, Nesting(p, q, r), sds, used).accepted
  {
    var u1 := used[0 := true];
    var u2 := u1[1 := true];
    var u3 := u2[2 := true];
    LeafTakes(ok, p, sds, used, 0);
    LeafTakes(ok, q, sds, u1, 1);
    var inner := Two(2, Leaf(p), Leaf(q));
    EvalTwo(ok, 2, Leaf(p), Leaf(q), sds, used, Outcome(true, u1), u1, Outcome(true, u2));
    LeafTakes(ok, r, sds, u2, 2);
    EvalTwo(ok, 1, inner, Leaf(r), sds, used, Outcome(true, u2), u2, Outcome(true, u3));
    LeafTakes(ok, q, sds, u3, 1);
    EvalTwo(ok, 2, Two(1, inner, Leaf(r)), Leaf(q), sds, used, Outcome(true, u3), u3, Outcome(false, u3));
  }

  /** Whatever the principals, if three signers answer one each, the signature for p revokes the decision. */
  lemma {:induction false} NestedRevoked(ok: Oracle, p: Principal, q: Principal, r: Principal,
                                         x: SignedData, y: SignedData, z: SignedData)
    requires DistinctIdentities([x, y, z])
    requires OnlyAt(ok, p, [x, y, z], 0) && OnlyAt(ok, q, [x, y, z], 1) && OnlyAt(ok, r, [x, y, z], 2)
    ensures Evaluation(ok, Nesting(p, q, r), [y, z]).accepted
    ensures !Evaluation(ok, Nesting(p, q, r), Insert([y, z], 0, x)).accepted
  {
    var fewer, more := [y, z], [x, y, z];
    assert Insert(fewer, 0, x) == more;
    assert forall j :: 0 <= j < 2 ==> fewer[j] == more[j + 1];
    DistinctIsKept(fewer);
    DistinctIsKept(more);
    NestedAccepts(ok, p, q, r, fewer, NoneUsed(2));
    NestedRejects(ok, p, q, r, more, NoneUsed(3));
  }
}
