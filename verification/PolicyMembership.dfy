/** Signature policies evaluated against an MSP: who the signers of an accepted policy are. */
module PolicyMembership {
  import opened Prelude
  import opened StringOrder
  import opened Certificates
  import opened SignaturePolicies
  import opened PolicyEvaluator
  import opened PolicySoundness
  import opened PolicyFlatGates
  import opened PolicyBuilder
  import opened Msp
  import opened MspTheorems
  import opened MspDecisions

  /** Whether a digest of `data` was signed with the key of the certificate. */
  type Verifier = (Certificate, Bytes, Bytes) -> bool

  /** The three checks of a policy leaf: the identity deserializes, matches the principal, and has signed. */
  ghost predicate LeafAccepts(crypto: Crypto, decode: Decoder, verify: Verifier, s: MspState, p: Principal, sd: SignedData) {
    match Deserialize(crypto, decode, s, sd.identity)
    case None => false
    case Some(cert) => SatisfiesPrincipal(crypto, decode, s, cert, p) && verify(cert, sd.data, sd.signature)
  }

  /** The signed datum comes from a valid member of the MSP. */
  ghost predicate SignedByMember(crypto: Crypto, decode: Decoder, verify: Verifier, s: MspState, sd: SignedData) {
    match Deserialize(crypto, decode, s, sd.identity)
    case None => false
    case Some(cert) => Accepts(crypto, s, cert) && verify(cert, sd.data, sd.signature)
  }

  /**
   The datum names the MSP, and is signed with the certificate that it presents, once that is
   sanitized; a leaf of the tree has issued that along its only chain, and not revoked it.
   */
  ghost predicate SignedUnrevoked(crypto: Crypto, decode: Decoder, verify: Verifier, conf: MspConfig, s: MspState, sd: SignedData) {
    exists cert, chain ::
      Presents(crypto, decode, conf, s, sd.identity, cert) && verify(cert, sd.data, sd.signature) && IssuedThrough(crypto, conf, s, cert, chain)
  }

  lemma {:induction false} MemberIsUnrevoked(crypto: Crypto, decode: Decoder, verify: Verifier, conf: MspConfig, s: MspState, sd: SignedData)
    requires Established(crypto, conf) == Some(s) && SignedByMember(crypto, decode, verify, s, sd)
    ensures SignedUnrevoked(crypto, decode, verify, conf, s, sd)
  {
    var cert := Deserialize(crypto, decode, s, sd.identity).value;
    SetupEnds(crypto, conf, s);
    PresentsIff(crypto, decode, conf, s, sd.identity, cert);
    var chain := AcceptedIsIssued(crypto, conf, s, cert);
  }

  /** A leaf accepts only data signed by valid members. */
  lemma {:induction false} LeafAcceptsMember(crypto: Crypto, decode: Decoder, verify: Verifier, conf: MspConfig, s: MspState,
                          p: Principal, sd: SignedData)
    requires Established(crypto, conf) == Some(s)
    requires LeafAccepts(crypto, decode, verify, s, p, sd)
    ensures SignedByMember(crypto, decode, verify, s, sd)
  {
    var cert := Deserialize(crypto, decode, s, sd.identity).value;
    PrincipalImpliesMember(crypto, decode, conf, s, cert, p);
  }

  /**
   An accepted policy is backed by data of valid members, each with a verified signature: at least as
   many as the policy needs, with pairwise different serialized identities.
   */
  lemma {:induction false} EndorsersAreMembers(crypto: Crypto, decode: Decoder, verify: Verifier, conf: MspConfig, s: MspState,
                            ok: Oracle, envelope: Envelope, signatureSet: seq<SignedData>) returns (endorsers: seq<SignedData>)
    requires Established(crypto, conf) == Some(s)
    requires forall p, sd :: ok(p, sd) <==> LeafAccepts(crypto, decode, verify, s, p, sd)
    requires NewPolicy(Some(envelope)).Ok?
    requires Evaluation(ok, NewPolicy(Some(envelope)).value, signatureSet).accepted
    ensures Need(NewPolicy(Some(envelope)).value).Some?
    ensures |endorsers| >= Need(NewPolicy(Some(envelope)).value).value
    ensures DistinctIdentities(endorsers)
    ensures forall sd :: sd in endorsers ==> sd in signatureSet && SignedByMember(crypto, decode, verify, s, sd)
    ensures forall sd :: sd in endorsers ==> SignedUnrevoked(crypto, decode, verify, conf, s, sd)
  {
    endorsers := AcceptedSigners(ok, NewPolicy(Some(envelope)).value, signatureSet);
    forall sd | sd in endorsers
      ensures SignedByMember(crypto, decode, verify, s, sd) && SignedUnrevoked(crypto, decode, verify, conf, s, sd)
    {
      var p :| ok(p, sd);
      LeafAcceptsMember(crypto, decode, verify, conf, s, p, sd);
      MemberIsUnrevoked(crypto, decode, verify, conf, s, sd);
    }
  }

  // ---------------------------------------------------------------------------------------------
  // Different serialized identities may be one member.

  /** The certificate behind a datum. */
  function CertificateOf(crypto: Crypto, decode: Decoder, s: MspState, sd: SignedData): Option<Certificate> {
    Deserialize(crypto, decode, s, sd.identity)
  }

  /** Data of valid members, no two of the same one. */
  ghost predicate DifferentMembers(crypto: Crypto, decode: Decoder, verify: Verifier, s: MspState, sds: seq<SignedData>) {
    && (forall i :: 0 <= i < |sds| ==> SignedByMember(crypto, decode, verify, s, sds[i]))
    && (forall i, j :: 0 <= i < j < |sds| ==> CertificateOf(crypto, decode, s, sds[i]) != CertificateOf(crypto, decode, s, sds[j]))
  }

  /** The signature set holds data of as many different members as the policy needs. */
  ghost predicate EnoughMembers(crypto: Crypto, decode: Decoder, verify: Verifier, s: MspState, e: Evaluator,
                                signatureSet: seq<SignedData>) {
    exists sds :: DifferentMembers(crypto, decode, verify, s, sds) && (forall sd :: sd in sds ==> sd in signatureSet) &&
                  Need(e).Some? && |sds| >= Need(e).value
  }

  /** Whatever a policy accepts is backed by as many different members as it needs. */
  ghost predicate CountsMembers(crypto: Crypto, decode: Decoder, verify: Verifier, s: MspState, ok: Oracle) {
    forall envelope, signatureSet ::
      NewPolicy(Some(envelope)).Ok? && Evaluation(ok, NewPolicy(Some(envelope)).value, signatureSet).accepted
      ==> EnoughMembers(crypto, decode, verify, s, NewPolicy(Some(envelope)).value, signatureSet)
  }

  /** No member can sign under two serialized identities. */
  ghost predicate OneIdentityEach(crypto: Crypto, decode: Decoder, verify: Verifier, s: MspState) {
    forall a, b | SignedByMember(crypto, decode, verify, s, a) && SignedByMember(crypto, decode, verify, s, b) ::
      CertificateOf(crypto, decode, s, a) == CertificateOf(crypto, decode, s, b) ==> a.identity == b.identity
  }

  /** A policy for two members. */
  function TwoMembers(name: string): Envelope {
    Envelope(0, And(SignedBy(0), SignedBy(0)), [RolePrincipal(Member, name)])
  }

  lemma {:induction false} TwoLeavesNeedTwo(p: Principal)
    ensures Need(Both(p, p)) == Some(2)
  {
    var es := [Leaf(p), Leaf(p)];
    var tail := es[1..];
    assert tail == [Leaf(p)] && tail[0] == Leaf(p) && tail[1..] == [];
    assert Need(Leaf(p)) == Some(1);
    assert CheapestOf(tail[1..], 0) == Some(0) && CheapestOf(tail[1..], 1) == None && CheapestOf(tail[1..], 2) == None;
    assert CheapestOf(tail, 2) == None && CheapestOf(tail, 1) == Some(1);
    assert CheapestOf(es, 2) == Some(2);
  }

  lemma {:induction false} TwoMembersCompiles(name: string)
    ensures NewPolicy(Some(TwoMembers(name))) == Ok(Both(RolePrincipal(Member, name), RolePrincipal(Member, name)))
    ensures Need(NewPolicy(Some(TwoMembers(name))).value) == Some(2)
  {
    var p := RolePrincipal(Member, name);
    AndCompiles(0, 0, [p]);
    TwoLeavesNeedTwo(p);
  }

  lemma {:induction false} TwoAnswer(ok: Oracle, p: Principal, a: SignedData, b: SignedData)
    requires ok(p, a) && ok(p, b) && a.identity != b.identity
    ensures Evaluation(ok, Both(p, p), [a, b]).accepted
  {
    DistinctIsKept([a, b]);
    BothEligible(ok, p, [a, b]);
    OnePrincipalCount(ok, p, [Leaf(p), Leaf(p)], [a, b], NoneUsed(2));
  }

  lemma {:induction false} BothEligible(ok: Oracle, p: Principal, sds: seq<SignedData>)
    requires |sds| == 2 && ok(p, sds[0]) && ok(p, sds[1])
    ensures |Eligible(ok, p, sds, NoneUsed(2))| == 2
  {
    assert Eligible(ok, p, sds, NoneUsed(2)) == {0, 1};
  }

  lemma {:induction false} SameMember(crypto: Crypto, decode: Decoder, verify: Verifier, s: MspState,
                                      a: SignedData, b: SignedData, sds: seq<SignedData>)
    requires CertificateOf(crypto, decode, s, a) == CertificateOf(crypto, decode, s, b)
    requires |sds| >= 2 && forall sd :: sd in sds ==> sd in [a, b]
    ensures !DifferentMembers(crypto, decode, verify, s, sds)
  {
    assert sds[0] in sds && sds[1] in sds;
    assert CertificateOf(crypto, decode, s, sds[0]) == CertificateOf(crypto, decode, s, sds[1]);
  }

  /** A member who signs under two serialized identities satisfies the policy for two members alone. */
  lemma {:induction false} OneMemberTwice(crypto: Crypto, decode: Decoder, verify: Verifier, s: MspState, ok: Oracle,
                                          a: SignedData, b: SignedData)
    requires forall p, sd :: ok(p, sd) <==> LeafAccepts(crypto, decode, verify, s, p, sd)
    requires SignedByMember(crypto, decode, verify, s, a) && SignedByMember(crypto, decode, verify, s, b)
    requires a.identity != b.identity && CertificateOf(crypto, decode, s, a) == CertificateOf(crypto, decode, s, b)
    ensures NewPolicy(Some(TwoMembers(s.name))).Ok?
    ensures Evaluation(ok, NewPolicy(Some(TwoMembers(s.name))).value, [a, b]).accepted
    ensures !EnoughMembers(crypto, decode, verify, s, NewPolicy(Some(TwoMembers(s.name))).value, [a, b])
  {
    TwoMembersCompiles(s.name);
    var p := RolePrincipal(Member, s.name);
    TwoAnswer(ok, p, a, b);
    forall sds | |sds| >= 2 && forall sd :: sd in sds ==> sd in [a, b]
      ensures !DifferentMembers(crypto, decode, verify, s, sds)
    {
      SameMember(crypto, decode, verify, s, a, b, sds);
    }
  }

  /** Data of valid members with different serialized identities come from different members, if each has one. */
  lemma {:induction false} DifferentIdentities(crypto: Crypto, decode: Decoder, verify: Verifier, s: MspState, sds: seq<SignedData>)
    requires OneIdentityEach(crypto, decode, verify, s) && DistinctIdentities(sds)
    requires forall sd :: sd in sds ==> SignedByMember(crypto, decode, verify, s, sd)
    ensures DifferentMembers(crypto, decode, verify, s, sds)
  {
  }

  /**
   Every accepted set of every policy is backed by as many different members as the policy needs,
   exactly when no member can sign under two serialized identities.
   */
  lemma {:induction false} CountsMembersIff(crypto: Crypto, decode: Decoder, verify: Verifier, conf: MspConfig, s: MspState, ok: Oracle)
    requires Established(crypto, conf) == Some(s)
    requires forall p, sd :: ok(p, sd) <==> LeafAccepts(crypto, decode, verify, s, p, sd)
    ensures CountsMembers(crypto, decode, verify, s, ok) <==> OneIdentityEach(crypto, decode, verify, s)
  {
    if OneIdentityEach(crypto, decode, verify, s) {
      forall envelope, signatureSet | NewPolicy(Some(envelope)).Ok? &&
        Evaluation(ok, NewPolicy(Some(envelope)).value, signatureSet).accepted
        ensures EnoughMembers(crypto, decode, verify, s, NewPolicy(Some(envelope)).value, signatureSet)
      {
        var sds := EndorsersAreMembers(crypto, decode, verify, conf, s, ok, envelope, signatureSet);
        DifferentIdentities(crypto, decode, verify, s, sds);
      }
    } else {
      var a, b :| SignedByMember(crypto, decode, verify, s, a) && SignedByMember(crypto, decode, verify, s, b) &&
        CertificateOf(crypto, decode, s, a) == CertificateOf(crypto, decode, s, b) && a.identity != b.identity;
      OneMemberTwice(crypto, decode, verify, s, ok, a, b);
    }
  }

  // ---------------------------------------------------------------------------------------------
  // Roles.

  /** The datum is signed by a member, or an administrator, of the MSP. */
  ghost predicate SignedInRole(crypto: Crypto, decode: Decoder, verify: Verifier, s: MspState, role: RoleType, sd: SignedData) {
    match Deserialize(crypto, decode, s, sd.identity)
    case None => false
    case Some(cert) =>
      && ((role == Member && Accepts(crypto, s, cert)) || (role == Admin && cert in s.admins))
      && verify(cert, sd.data, sd.signature)
  }

  ghost predicate SomeInRole(crypto: Crypto, decode: Decoder, verify: Verifier, s: MspState, role: RoleType, sds: seq<SignedData>) {
    exists i :: 0 <= i < |sds| && SignedInRole(crypto, decode, verify, s, role, sds[i])
  }

  /**
   The ready-made any-member and any-admin policies, as the builder orders them, accept exactly when the
   MSP is listed and one of its members, or administrators, has signed.
   */
  lemma {:induction false} RolePolicyExact(crypto: Crypto, decode: Decoder, verify: Verifier, s: MspState, ok: Oracle,
                                           role: RoleType, ids: seq<string>, signatureSet: seq<SignedData>)
    requires forall p, sd :: ok(p, sd) <==> LeafAccepts(crypto, decode, verify, s, p, sd)
    ensures NewPolicy(Some(AnyOfRole(role, Sorted(ids)))).Ok?
    ensures Evaluation(ok, NewPolicy(Some(AnyOfRole(role, Sorted(ids)))).value, signatureSet).accepted <==>
            s.name in ids && SomeInRole(crypto, decode, verify, s, role, Dedup(signatureSet))
  {
    var sds := Dedup(signatureSet);
    AnyOfRoleExact(ok, role, Sorted(ids), signatureSet);
    SortingIsImmaterial(ok, role, ids, sds);
    forall k, i | 0 <= k < |ids| && 0 <= i < |sds|
      ensures ok(RolePrincipal(role, ids[k]), sds[i]) <==>
              ids[k] == s.name && SignedInRole(crypto, decode, verify, s, role, sds[i])
    {
    }
  }

  /** Somebody can sign as an administrator, and somebody as a member who is no administrator. */
  ghost predicate BothKinds(crypto: Crypto, decode: Decoder, verify: Verifier, s: MspState) {
    exists a, b :: SignedInRole(crypto, decode, verify, s, Admin, a) && SignedInRole(crypto, decode, verify, s, Member, b) &&
                   !SignedInRole(crypto, decode, verify, s, Admin, b)
  }

  /** A role leaf accepts what is signed in the role, and an administrator is a member. */
  lemma {:induction false} RoleAccepted(crypto: Crypto, decode: Decoder, verify: Verifier, conf: MspConfig, s: MspState, sd: SignedData)
    requires Established(crypto, conf) == Some(s)
    ensures LeafAccepts(crypto, decode, verify, s, RolePrincipal(Admin, s.name), sd) <==>
            SignedInRole(crypto, decode, verify, s, Admin, sd)
    ensures LeafAccepts(crypto, decode, verify, s, RolePrincipal(Member, s.name), sd) <==>
            SignedInRole(crypto, decode, verify, s, Member, sd)
    ensures SignedInRole(crypto, decode, verify, s, Admin, sd) ==> SignedInRole(crypto, decode, verify, s, Member, sd)
  {
    var admin := RolePrincipal(Admin, s.name);
    if LeafAccepts(crypto, decode, verify, s, admin, sd) {
      PrincipalImpliesMember(crypto, decode, conf, s, CertificateOf(crypto, decode, s, sd).value, admin);
    }
  }

  /**
   And of an administrator and a member accepts every set that answers both, in that order; in the
   other order it misses some exactly when there are administrators and other members.
   */
  lemma {:induction false} AdminFirst(crypto: Crypto, decode: Decoder, verify: Verifier, conf: MspConfig, s: MspState, ok: Oracle)
    requires Established(crypto, conf) == Some(s)
    requires forall p, sd :: ok(p, sd) <==> LeafAccepts(crypto, decode, verify, s, p, sd)
    ensures AndComplete(ok, RolePrincipal(Admin, s.name), RolePrincipal(Member, s.name))
    ensures AndComplete(ok, RolePrincipal(Member, s.name), RolePrincipal(Admin, s.name)) <==>
            !BothKinds(crypto, decode, verify, s)
  {
    var admin, member := RolePrincipal(Admin, s.name), RolePrincipal(Member, s.name);
    AndCompleteIff(ok, admin, member);
    AndCompleteIff(ok, member, admin);
    forall sd {
      RoleAccepted(crypto, decode, verify, conf, s, sd);
    }
    if BothKinds(crypto, decode, verify, s) {
      var a, b :| SignedInRole(crypto, decode, verify, s, Admin, a) && SignedInRole(crypto, decode, verify, s, Member, b) &&
        !SignedInRole(crypto, decode, verify, s, Admin, b);
      assert a.identity != b.identity;
      assert ok(member, a) && ok(admin, a) && ok(member, b) && !ok(admin, b);
    }
  }
}
