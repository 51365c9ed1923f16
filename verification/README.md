# Signature policies, membership and key handling of Hyperledger Fabric 1.0, in Dafny

A model of three connected parts of the peer, with proofs about them.

* **Signature policies** (`common/cauthdsl`). A policy is a tree of N-out-of gates over "signed by
  principal i" leaves. It compiles to nested evaluators that share a vector of used signatures; gates
  run their children on a scratch copy and keep it only if the child accepts. The model has the
  recursive meaning of evaluation, the in-place evaluator proved equal to it, and then: what an
  acceptance proves, how many signatures it costs, how far greedy evaluation is from the best choice
  of signatures, and what an additional signature can change.
* **Membership service provider** (`msp`). Path building over certificate pools is written out as a
  depth-first search and proved to list exactly the validation chains. Set-up fills an object stage by
  stage; the theorems are about every state that a successful set-up leaves behind.
* **Cryptographic provider** (`bccsp`). Low-S ECDSA signatures and key re-randomisation over an
  abstract cyclic group, fixed-width integers, CBC with PKCS#7 padding, the PKCS#11 session pool and
  the file-based key store.

`PolicyMembership` joins the first two: an accepted policy is backed by data of valid members under enough
different serialized identities, and by enough different members exactly when each of them has only one.

## Files

| file | content |
|---|---|
| `Prelude.dfy`, `StringOrder.dfy`, `ModularArithmetic.dfy` | shared vocabulary |
| `SignaturePolicies.dfy`, `PolicyEvaluator.dfy` | policies, compilation, evaluation, duplicate removal |
| `PolicySoundness.dfy`, `PolicyCost.dfy`, `PolicySatisfiability.dfy` | witnesses, least number of signers, satisfiable policies |
| `PolicyFlatGates.dfy`, `PolicyNesting.dfy`, `PolicyDuplicates.dfy`, `PolicyBuilder.dfy` | greedy against optimal, nested gates, duplicates, ready-made policies |
| `PolicyStability.dfy`, `PolicyRevocation.dfy`, `PolicyRevoked.dfy`, `PolicyRevocationExact.dfy` | more signatures: what never revokes a decision, and what does |
| `Certificates.dfy`, `CertificateChains.dfy`, `ChainRenaming.dfy`, `Sanitation.dfy` | certificates, path building, replaced certificates, low-S certificates |
| `Msp.dfy`, `MspProvider.dfy`, `MspTheorems.dfy`, `MspRollover.dfy` | the provider: specification, object, theorems, a counterexample |
| `MspDecisions.dfy` | what a provider decides, in terms of its configuration |
| `MspSanitation.dfy`, `MspSanitizedTree.dfy`, `MspOtherOrder.dfy` | sanitized identities, sanitized authorities, counterexamples |
| `PolicyMembership.dfy` | policies evaluated against a provider |
| `EllipticGroup.dfy`, `Ecdsa.dfy`, `KeyDerivation.dfy`, `BigEndian.dfy`, `TokenSigning.dfy` | ECDSA and its encodings, in software and on a token |
| `CipherBlockChaining.dfy`, `SessionPool.dfy`, `KeyStore.dfy` | encryption, sessions, keys on disk |

## How the source is represented

* Deserializing an identity, matching it with a principal and checking its signature is one pure oracle
  `ok(principal, datum)` for the policy evaluator; `PolicyMembership.LeafAccepts` spells it out for one provider.
* A compiled closure is represented by the values that it captures. Integers are unbounded; the
  `int32` counters of a gate cannot overflow because a protobuf message cannot hold that many rules.
* `x509.Certificate.Verify` is modelled as the enumeration of all issuer paths on which no intermediate
  repeats an earlier certificate (the root at the end may), with validity dates, path length constraints,
  the CA flag and the server-authentication usage. Its clock is the one that `getValidityOptsForCert`
  sets: one second after the certificate becomes valid.
* Signature checks, hashing, ASN.1, PEM and the token are parameters, with the laws that a property
  needs stated in its `requires`.
* A slice panic of padding, encoding and decryption is an explicit outcome, and so are the two panics of
  sanitation in the methods that sanitize. Set-up and validation treat a panic like an error.

## Properties that do not hold, and when they do

* More signatures can make a nested policy reject (`NestedRevoked`), because a gate that needs several
  rules gives the signatures of a failed attempt back. They cannot for steady policies
  (`SteadyNeverRevoked`): gates of any threshold over Ors, Ors of such gates at any depth, Ands of them
  in which only the last rule has an And below an Or. For trees of And and Or over different principals
  this is the exact condition (`NeverRevokedIff`). Nor can they where no signature answers two leaves
  (`ReadOnceNeverRevoked`).
* A further datum of an identity that is already in the set can turn accept into reject
  (`BadSignatureFirst`); `InsertUnchangedIff` says exactly which data no policy can notice.
* Greedy evaluation can miss a satisfying set (`HalfIsTight`). `AndCompleteIff` says exactly when `And`
  of two leaves does not, and `AdminFirst` what that means for administrators and members.
* Duplicates are recognized by serialized identity, so a member with two of them can satisfy a policy
  for two members alone (`OneMemberTwice`). `CountsMembersIff` says that this is the only way in which
  an accepted set has fewer different members than the policy needs.
* An identity can carry a unit that is configured with its own issuer and be rejected
  (`RolloverRejected`): the issuer's chain is built at another time than the identity's.
  `UnitsAcceptedIff` says exactly which identities pass.
* On P-521 a signature can be too long for the buffer sent to the token (`P521Overflows`);
  `TokenAgreesIff` says exactly when hardware and software verification agree, and
  `TokenSignThenVerify` when the provider panics on what it has signed itself.
* Decrypting an IV without ciphertext panics, and nothing else does (`DecryptPanicsIff`).
* A private key is not returned any more once the public key is stored under the same identifier
  (`PublicBeforePrivate`); `StoreThenGetIff` says when the key just stored is returned.
* Sanitizing twice is sanitizing once exactly for s below the order (`SanitationIdempotentIff`), and
  unifies s and N - s exactly for canonical encodings (`TwinsSanitizedIff`). For identities of a
  provider there is one more condition, on authorities whose keys have another order
  (`SanitizeCertIdempotentIff`, `TwinIdentitiesIff`), and `SecondPassFails` is a provider that violates it.
* Sanitation panics on some roots (`RootPanics`, `SanitizePanicsIff`), but never after set-up
  (`EstablishedNeverPanics`).
* Rebuilding the pools from sanitized authorities keeps their chains if it keeps the issuers of the
  intermediates, except for an intermediate that is sanitized to a root (`IntermediateBecomesRoot`,
  `SetupMapsChainsIff`). It keeps the issuers exactly if keys of other orders than the sanitizing one
  agree (`KeepsIssuersIff`).

## Model

| member | source | states |
|---|---|---|
| SignaturePolicies.Compile | common/cauthdsl/cauthdsl.go:40-119 | succeeds exactly when every node is known and every index in range, with an evaluator of the policy's shape, thresholds and principals |
| SignaturePolicies.MirrorsIsFunctional | common/cauthdsl/cauthdsl.go:40-119 | that contract determines the evaluator |
| SignaturePolicies.NewPolicy | common/cauthdsl/policy.go:32-51 | succeeds exactly for version 0 and a well-formed rule; says which version it refuses |
| PolicyEvaluator.Eval | common/cauthdsl/cauthdsl.go:56-115 | evaluation only adds marks, and only inside the signature set |
| PolicyEvaluator.Run | common/cauthdsl/cauthdsl.go:56-115 | the evaluator on in-place buffers with scratch copies equals the recursive one, result and marks |
| PolicyEvaluator.RejectedChildRollsBack | common/cauthdsl/cauthdsl.go:61-67 | a rejecting child could as well be absent from its gate |
| PolicyEvaluator.RejectingGateMarks | common/cauthdsl/cauthdsl.go:56-76 | a rejecting gate may change the buffer it was given |
| PolicyEvaluator.SatisfiedGateGoesOn | common/cauthdsl/cauthdsl.go:61-67 | a gate evaluates the rules behind its threshold too, and they take their signatures |
| PolicyEvaluator.Deduplicate | common/cauthdsl/cauthdsl.go:24-36 | the loop computes the recursive duplicate removal |
| PolicyEvaluator.DedupIdentities | common/cauthdsl/cauthdsl.go:23-36 | no identity is lost, none remains twice |
| PolicyEvaluator.DedupKeepsFirst | common/cauthdsl/cauthdsl.go:23-36 | exactly the first occurrences remain, in order |
| PolicyEvaluator.Evaluate | common/cauthdsl/policy.go:58-68 | accepts exactly when the evaluator accepts the deduplicated set with nothing used; a nil policy rejects |
| PolicySoundness.EvalSound | common/cauthdsl/cauthdsl.go:56-115 | an accepting evaluation has a witness whose signers are exactly the newly used signatures, each once |
| PolicySoundness.CompilePreservesMeaning | common/cauthdsl/cauthdsl.go:40-119 | policy and compiled evaluator have the same witnesses |
| PolicySoundness.EvaluateSound | common/cauthdsl/policy.go:58-68 | an accepted set contains a witness for the policy itself, signed by pairwise different identities |
| PolicySoundness.NeedIsLowerBound | common/cauthdsl/cauthdsl.go:69-75 | no witness has fewer signers than the policy needs, by the cheapest choice of n rules at every gate |
| PolicySoundness.NeedIsAttained | common/cauthdsl/cauthdsl.go:69-75 | and some witness shape has exactly that many |
| PolicyCost.NeedIsCheapestRules | common/cauthdsl/cauthdsl.go:69-75 | the cheapest choice of n rules is the n rules of least need: a gate needs the sum of the n smallest, and cannot be met if fewer can |
| PolicyCost.SortedNeedsPermute | common/cauthdsl/cauthdsl.go:69-75 | the numbers summed there are the needs of the rules, each as often |
| PolicySoundness.ThresholdLowerBound | common/cauthdsl/cauthdsl.go:56-111 | acceptance marks one signature per committed leaf, and at least as many as needed |
| PolicySoundness.AcceptedSigners | common/cauthdsl/policy.go:58-68 | an accepted set holds at least that many data of different identities, each accepted for a principal |
| PolicySatisfiability.SatisfiableIff | common/cauthdsl/cauthdsl.go:56-76 | a policy is accepted for some signatures exactly when its need is finite |
| PolicyFlatGates.GreedyIsHalfOptimal | common/cauthdsl/cauthdsl.go:59-75 | any assignment of leaves to unused signatures is at most twice the verified count |
| PolicyFlatGates.HalfIsTight | common/cauthdsl/cauthdsl.go:84-112 | the factor of two is reached |
| PolicyFlatGates.OnePrincipalCount | common/cauthdsl/cauthdsl.go:84-112 | with one principal the count is the smaller of leaves and eligible signatures |
| PolicyFlatGates.GreedyIsOptimal | common/cauthdsl/cauthdsl.go:59-75 | no assignment beats the count when later leaves include what they share with earlier ones |
| PolicyFlatGates.NestedGateIsExact | common/cauthdsl/cauthdsl.go:59-75 | such a gate accepts exactly when n leaves can be answered by different signatures |
| PolicyFlatGates.AndCompleteIff | common/cauthdsl/cauthdsl_builder.go:155-157 | evaluating And of two leaves misses no set that answers both without duplicates, exactly when every signer of the first principal satisfies the second as soon as another identity satisfies both |
| PolicyStability.EvalSkipsUsed | common/cauthdsl/cauthdsl.go:84-88 | a used signature, anywhere in the set, is invisible to any evaluator |
| PolicyStability.FlatStability | common/cauthdsl/cauthdsl.go:61-67 | one more identity anywhere in the set changes a flat gate's count by zero or one |
| PolicyStability.FlatNeverRevoked | common/cauthdsl/policy.go:58-68 | a flat policy never turns from accept to reject |
| PolicyStability.ReadOnceIsFormula | common/cauthdsl/cauthdsl.go:56-115 | if no signature answers two leaves, evaluation decides the threshold formula of the policy |
| PolicyStability.ReadOnceIsExact | common/cauthdsl/policy.go:58-68 | such a policy of any depth accepts exactly the sets that have a witness |
| PolicyStability.ReadOnceNeverRevoked | common/cauthdsl/policy.go:58-68 | and never turns from accept to reject |
| PolicyRevocation.SteadyNeverRevoked | common/cauthdsl/cauthdsl.go:56-76 | a policy of any depth in which rollback can only happen where it decides the whole is accepted after any further signer, for every oracle |
| PolicyRevocationExact.NeverRevokedIff | common/cauthdsl/cauthdsl_builder.go:155-162 | a tree of And and Or over different principals is never revoked exactly if no rule of an And but the last has an And below an Or |
| PolicyRevocationExact.ShapeOfSteady | common/cauthdsl/cauthdsl_builder.go:155-162 | for such trees that is what steady means |
| PolicyNesting.NestingIsFlat | common/cauthdsl/cauthdsl_builder.go:155-162 | nested And, and nested Or, decide like the flat gate over all their leaves |
| PolicyBuilder.NestedRevoked | common/cauthdsl/cauthdsl.go:61-75 | for any three principals with a signer each, a nested policy that one more signature makes reject |
| PolicyDuplicates.DedupDecides | common/cauthdsl/policy.go:58-68 | the decision depends on the deduplicated set alone, not on the length of the vector of used signatures |
| PolicyDuplicates.SameDecisionsIff | common/cauthdsl/cauthdsl.go:24-36 | two signature sets are decided alike by every policy and oracle exactly when they are equal after deduplication, order included |
| PolicyDuplicates.InsertUnchangedIff | common/cauthdsl/cauthdsl.go:27-34 | a datum put anywhere into a set changes no decision exactly if its identity comes earlier, or it equals the datum that deduplication keeps next |
| PolicyDuplicates.BadSignatureFirst | common/cauthdsl/cauthdsl.go:27-34 | a bad signature in front of a good one of the same identity is decisive |
| PolicyBuilder.AndCompiles | common/cauthdsl/cauthdsl_builder.go:155-157 | And of two leaves compiles to the two-out-of-two gate of the named principals |
| PolicyBuilder.SignedByAnyOfGivenRole | common/cauthdsl/cauthdsl_builder.go:117-138 | sorts its argument in place and builds the one-out-of policy over it |
| PolicyBuilder.AnyOfRoleExact | common/cauthdsl/cauthdsl_builder.go:140-152 | the policy compiles and accepts exactly when someone of the role in one of the MSPs has signed |
| PolicyBuilder.SortingIsImmaterial | common/cauthdsl/cauthdsl_builder.go:120 | sorting the identifiers does not change that decision |
| PolicyMembership.LeafAcceptsMember | common/cauthdsl/cauthdsl.go:93-111 | a leaf accepts only data of valid members |
| PolicyMembership.EndorsersAreMembers | common/cauthdsl/policy.go:58-68 | an accepted policy is backed by data of valid members with verified signatures, under at least the needed number of different serialized identities; each names the MSP, and its certificate is issued along its only chain and on none of its issuer's configured lists |
| PolicyMembership.OneMemberTwice | common/cauthdsl/cauthdsl.go:27-34 | a member with two serialized identities satisfies a policy for two members alone |
| PolicyMembership.CountsMembersIff | common/cauthdsl/cauthdsl.go:24-36 | every accepted set of every policy has as many different members as the policy needs, exactly when no member can sign under two serialized identities |
| PolicyMembership.RolePolicyExact | common/cauthdsl/cauthdsl_builder.go:140-152 | the ready-made role policies accept exactly when the provider's MSP is listed and one of its members, or administrators, has signed |
| PolicyMembership.AdminFirst | common/cauthdsl/cauthdsl_builder.go:155-157 | And of administrator and member misses no satisfying set; in the other order it misses one exactly when an administrator and a member who is none can both sign |
| CertificateChains.ChainsFromExact | msp/mspimpl.go:596 | path building finds exactly the issuer paths through intermediates, none of which repeats an earlier certificate, to a root |
| CertificateChains.ChainsFromDistinct | msp/mspimpl.go:596-606 | and lists none twice |
| CertificateChains.VerifyExact | msp/mspimpl.go:591-609 | verification returns exactly the validation chains, each once |
| CertificateChains.VerifyByPositions | msp/mspimpl.go:591-609 | the same by positions and fields: who issued whom, valid one second after the certificate becomes valid, and no more intermediates below a certificate than it allows |
| CertificateChains.UniqueChainExact | msp/mspimpl.go:601-608 | a chain is returned exactly when it is the only validation chain |
| MspProvider.BccspMsp.GetValidationChain | msp/mspimpl.go:611-632 | the unique chain, of length two at least, whose parent is not an internal node |
| MspProvider.BccspMsp.SanitizeCertificate | msp/mspimpl.go:971-1005 | computes the sanitized certificate against the issuer on the unique chain, and panics exactly on a missing issuer or one without an ECDSA key |
| MspDecisions.SanitizeCertExact | msp/mspimpl.go:971-1005 | the sanitized form is the certificate itself unless it is signed by ECDSA, and then differs in the signature only, which is kept if s is at most half the order of the issuer's key and encoded anew with N - s otherwise |
| MspProvider.BccspMsp.ValidateCertAgainstChain | msp/mspimpl.go:1064-1113 | accepts exactly if the issuer has a key identifier, every list has one, and no list of that key signed by the issuer has the serial number |
| MspProvider.BccspMsp.GetOrganizationalUnits | msp/identities.go:73-94 | every unit of the certificate with the hash of its certifiers |
| MspProvider.BccspMsp.ValidateIdentityOUs | msp/mspimpl.go:1115-1143 | passes exactly if nothing is registered or some unit is |
| MspProvider.BccspMsp.Validate | msp/mspimpl.go:1007-1024 | accepts exactly the identities with a chain, not revoked, with an accepted unit |
| MspDecisions.AcceptsIff | msp/mspimpl.go:1007-1143 | valid are exactly the identities that are no CA, have one chain, whose issuer is no ancestor of an intermediate and has a key identifier, that no configured list signed by that issuer has, and that carry a unit configured with that issuer if units are configured |
| MspProvider.BccspMsp.DeserializeIdentity | msp/mspimpl.go:406-463 | yields the sanitized certificate of an identity that names this MSP |
| MspProvider.BccspMsp.Satisfies | msp/mspimpl.go:466-555 | decides the specified meaning of every kind of principal |
| MspDecisions.PrincipalIff | msp/mspimpl.go:466-555 | who satisfies which principal, by the configured name and administrators, the hash of the only chain, and what the serialized identity decodes to |
| MspDecisions.AdministratorsAre | msp/mspimpl.go:760-773 | whoever presents the certificate of a configured administrator, any of them, satisfies the ADMIN principal |
| MspProvider.BccspMsp.SetupCAs | msp/mspimpl.go:687-744 | authorities are sanitized against the configured pools, then the pools are rebuilt from them |
| MspProvider.BccspMsp.SetupAdmins | msp/mspimpl.go:760-773 | succeeds exactly if every administrator certificate parses and sanitizes, and keeps them in order |
| MspProvider.BccspMsp.SetupCRLs | msp/mspimpl.go:775-793 | succeeds exactly if every revocation list parses, and keeps them in order |
| MspProvider.BccspMsp.FinalizeSetupCAs | msp/mspimpl.go:795-823 | succeeds exactly if every authority is proper, and leaves the tree with its internal nodes |
| MspProvider.BccspMsp.SetupOUs | msp/mspimpl.go:838-916 | registers each unit once under the hash of its certifier's chain, or fails |
| MspProvider.BccspMsp.Setup | msp/mspimpl.go:277-344 | succeeds exactly if the specification does, with that state |
| MspDecisions.SetupDescribes | msp/mspimpl.go:277-344 | a successful set-up leaves the configured name, every configured authority, administrator and list by position, proper authorities that are not revoked, their strict ancestors, and a register of exactly the configured units |
| MspDecisions.DescribedSetsUp | msp/mspimpl.go:277-344 | and set-up succeeds whenever such a state exists |
| MspTheorems.InternalNodesExact | msp/mspimpl.go:807-820 | after set-up the internal nodes are exactly the strict ancestors of configured intermediates |
| MspTheorems.AcceptedUnderLeaf | msp/mspimpl.go:611-632 | a valid identity has one chain, and its issuer is no ancestor of an intermediate |
| MspTheorems.IssuerChainIff | msp/mspimpl.go:1145-1159 | the issuer's unique chain is the rest of the identity's exactly if those certificates are valid at the issuer's time |
| MspTheorems.UnitAgreement | msp/mspimpl.go:838-916 | an identity with a unit configured for its direct issuer passes the unit check, if the dates agree |
| MspTheorems.UnitsAcceptedIff | msp/mspimpl.go:1115-1143 | exactly those identities pass |
| MspTheorems.DatesReject | msp/mspimpl.go:1145-1159 | with units configured, every identity under an intermediate whose chain is not valid at the issuer's time is rejected |
| MspRollover.RolloverRejected | msp/mspimpl.go:1145-1159 | an identity with a unit configured for its direct issuer that is rejected, since a root was replaced |
| MspTheorems.PrincipalImpliesMember | msp/mspimpl.go:491-504 | whoever satisfies a principal, in particular the administrator role, is a valid member |
| MspSanitation.TwinIdentitiesIff | msp/mspimpl.go:971-1005 | in every accepted provider, identities whose certificates differ by s against N - s become equal exactly if the low one is canonically encoded and the second has no chain under a key of another order |
| MspSanitation.SamePrincipalIff | msp/mspimpl.go:508-520 | IDENTITY principals made from two serialized identities, the first valid, are satisfied by the same identities exactly if both are sanitized alike |
| MspSanitation.TwinPrincipalsIff | msp/mspimpl.go:508-520 | so a principal made from a valid identity means the same as one made from its twin under exactly that condition |
| MspSanitation.EcdsaTwins | msp/mspimpl.go:968-1005 | no parent with a key of that order, on whatever curve the other authorities are, tells such certificates apart |
| MspSanitation.OneOrderSuffices | msp/mspimpl.go:591-609 | chains under keys of another order are excluded where the possible issuers of a certificate share one order |
| MspSanitation.SanitizeCertIdempotentIff | msp/identities.go:181-188 | in every accepted provider, sanitizing an identity again, as a signing identity does, yields it exactly if it has no chain under a key of another order, and fails otherwise |
| MspSanitation.SanitizePanicsIff | msp/mspimpl.go:971-1005 | sanitation panics exactly on a usable ECDSA-signed root that is no CA or has no ECDSA key |
| MspSanitation.RootPanics | msp/mspimpl.go:989-995 | such a root, alone in the pools |
| MspSanitation.EstablishedNeverPanics | msp/mspimpl.go:424-462 | once set-up has succeeded it panics on no certificate |
| MspOtherOrder.SecondPassFails | msp/mspimpl.go:971-1005 | a provider with roots on two curves, and an identity whose sanitized form fails to be sanitized again, since the key of smaller order verifies it as well |
| MspOtherOrder.IntermediateBecomesRoot | msp/mspimpl.go:687-744 | a root and its twin as intermediate: the twin's chain is lost when it is sanitized to the root |
| ChainRenaming.ChainsAreMappedIff | msp/mspimpl.go:591-609 | if authorities are replaced by others that differ in the signature and keep their issuers, the unique chain of each becomes that of the replacements exactly unless an intermediate is replaced by a root |
| MspSanitizedTree.KeepsIssuersIff | msp/mspimpl.go:971-1005 | sanitation is such a replacement exactly if every key of another order than the sanitizing one issued an intermediate before as after |
| MspSanitizedTree.OneOrderEachSuffices | msp/mspimpl.go:591-609 | which holds where the possible issuers of each intermediate have keys of the sanitizing order |
| MspSanitizedTree.SetupMapsChainsIff | msp/mspimpl.go:687-744 | where it is, the pools rebuilt by set-up hold the sanitized chain of every authority, with the same exception |
| Sanitation.SanitizeSignedCert | msp/cert.go:72-112 | computes the certificate with the low-S signature, and panics exactly on a parent key that is no ECDSA key |
| Sanitation.SanitationKeepsCertificate | msp/cert.go:68-71 | nothing but the signature changes, and that to the low form of the same pair |
| Sanitation.SanitationIdempotentIff | msp/cert.go:80-88 | a second sanitation changes nothing exactly if s is below the order, and fails otherwise |
| Sanitation.TwinsSanitizedIff | msp/cert.go:80-111 | s and N - s are sanitized to the same bytes exactly if the low one is canonically encoded |
| Ecdsa.LowSCanonical | bccsp/sw/ecdsa.go:127-153 | LowS is the one of s and N - s that is at most half the order; it is idempotent and the same for both |
| Ecdsa.IsLowS | bccsp/sw/ecdsa.go:128-136 | says whether s is already its low form |
| Ecdsa.ToLowS | bccsp/sw/ecdsa.go:138-153 | overwrites s with its low form and tells whether it changed |
| Ecdsa.FinishSignature | bccsp/sw/ecdsa.go:77-89 | encodes the low form of the primitive's signature |
| Ecdsa.SignatureToLowS | bccsp/sw/ecdsa.go:109-125 | re-encodes exactly the signatures that are not low |
| Ecdsa.LowSPreservesVerification | bccsp/sw/ecdsa.go:144-149 | a signature satisfies the verification equation of section 4.1.4 of SEC 1 exactly if its low form does |
| Ecdsa.PrimitiveVerifies | bccsp/sw/ecdsa.go:78 | the primitive's signatures satisfy that equation |
| Ecdsa.VerifiesIff | bccsp/sw/ecdsa.go:106 | and nothing else does: verification accepts exactly what the primitive may return under the key |
| Ecdsa.VerifySignatureExact | bccsp/sw/ecdsa.go:91-107 | which encodings, curves and s are refused, and with which error |
| Ecdsa.SignThenVerify | bccsp/sw/ecdsa.go:77-107 | whatever signing returns, verification accepts |
| Ecdsa.NoMalleability | bccsp/sw/ecdsa.go:97-106 | of a signature and its flip verification accepts exactly the low one |
| KeyDerivation.Blinding | bccsp/sw/keyderiv.go:51-55 | the scalar taken from an expansion value is in [1, N-1] |
| KeyDerivation.BlindingExact | bccsp/sw/keyderiv.go:51-55 | and congruent to the value plus one modulo N - 1 |
| KeyDerivation.DerivedScalarExact | bccsp/sw/keyderiv.go:105-106 | the derived scalar is the residue of d plus that scalar modulo N |
| KeyDerivation.DerivePublic | bccsp/sw/keyderiv.go:43-70 | yields the public point of d + k modulo N, and fails exactly if that is zero |
| KeyDerivation.DerivePrivate | bccsp/sw/keyderiv.go:88-122 | yields the key pair of d + k modulo N, and fails exactly if that is zero |
| KeyDerivation.DeriveOnToken | bccsp/pkcs11/impl.go:211-263 | the same, computed by multiplying the base |
| KeyDerivation.DeriveEverywhere | bccsp/pkcs11/impl.go:151-263 | public and private derivation in both providers reach one key or fail together |
| KeyDerivation.DerivedKeyIsNew | bccsp/sw/keyderiv.go:51-62 | a derived key is never the original |
| KeyDerivation.DerivationsCommute | bccsp/sw/keyderiv.go:105-106 | the order of two derivations does not matter |
| BigEndian.FixedWidthRoundTrip | bccsp/utils/keys.go:101-104 | padded big-endian bytes decode to the number |
| BigEndian.FromBytesConcat | bccsp/utils/keys.go:101-104 | bytes in front weigh more, by the power of 256 of the length behind |
| BigEndian.PadScalar | bccsp/utils/keys.go:102-104 | has the width of the order, decodes to D, succeeds exactly if D fits, and always for D below the order |
| BigEndian.EncodeForToken | bccsp/pkcs11/pkcs11.go:342-348 | panics exactly when r exceeds its half or s the buffer; otherwise what the two copies leave |
| BigEndian.TokenSeesIff | bccsp/pkcs11/pkcs11.go:322-348 | the halves decode to (R, S) exactly if S fits in its half |
| BigEndian.ByteSizeExact | bccsp/pkcs11/ecdsa.go:118 | the byte size is the bit length of the order divided by eight, rounded down on P-521 alone |
| BigEndian.VerifyWithToken | bccsp/pkcs11/ecdsa.go:98-120 | same errors as software verification; otherwise the token's answer on the encoding, or a panic |
| BigEndian.TokenAgreesIff | bccsp/pkcs11/ecdsa.go:110-119 | the token's answer is the software's exactly if r fits, which below the order only P-521 can violate |
| BigEndian.P521Overflows | bccsp/pkcs11/ecdsa.go:118 | an r below the order of P-521 on which token verification panics, whatever s and the token |
| TokenSigning.SignWithToken | bccsp/pkcs11/ecdsa.go:76-96 | splits the token's raw signature, brings s to low form and encodes it |
| TokenSigning.HalvesOfFixedWidth | bccsp/pkcs11/pkcs11.go:322-325 | two integers written in the same width are read back |
| TokenSigning.TokenSignThenVerify | bccsp/pkcs11/ecdsa.go:76-120 | what the provider signs with the token is accepted by software verification, and by token verification exactly if r fits in the byte size; otherwise that panics, on P-521 only |
| CipherBlockChaining.UnpadBytes | bccsp/sw/aes.go:56-72 | the loop decides whether the last n bytes are n |
| CipherBlockChaining.UnpadPad | bccsp/sw/aes.go:50-72 | unpadding undoes padding, section 6.3 of RFC 5652 |
| CipherBlockChaining.PadUnpad | bccsp/sw/aes.go:50-72 | on a non-empty multiple of the block size padding undoes unpadding |
| CipherBlockChaining.PadExact | bccsp/sw/aes.go:50-54 | padding appends between 1 and 16 bytes, up to a multiple of 16, each of which is their number |
| CipherBlockChaining.UnpadIff | bccsp/sw/aes.go:56-72 | unpadding yields exactly what has such an end removed, and the inputs on which it panics |
| CipherBlockChaining.XorDiffers | bccsp/sw/aes.go:90-91 | each bit of the combination of two bytes says whether theirs differ |
| CipherBlockChaining.CryptBlocks | bccsp/sw/aes.go:84-91 | fills the buffer behind the IV with the CBC encryption |
| CipherBlockChaining.DecryptInPlace | bccsp/sw/aes.go:112-116 | in-place decryption equals CBC decryption of the original buffer |
| CipherBlockChaining.EncryptBytes | bccsp/sw/aes.go:74-94 | computes IV and CBC encryption of the padded plaintext |
| CipherBlockChaining.DecryptBytes | bccsp/sw/aes.go:96-136 | computes the decryption and leaves the padded plaintext in the caller's buffer |
| CipherBlockChaining.EncryptExact | bccsp/sw/aes.go:74-94 | block i of the ciphertext encrypts the bits in which block i of the padded plaintext differs from the ciphertext block before, or from the IV |
| CipherBlockChaining.DecryptExact | bccsp/sw/aes.go:96-136 | a plaintext is returned only for an IV and whole blocks, and is, padded, set where the decrypted block differs from the ciphertext block before, or from the IV |
| CipherBlockChaining.DecryptPlainIff | bccsp/sw/aes.go:119-136 | of those, exactly the ones that decrypt to a padded text are accepted |
| CipherBlockChaining.DecryptEncrypt | bccsp/sw/aes.go:119-136 | decryption undoes encryption for every plaintext, key and IV, over any block permutation |
| CipherBlockChaining.EncryptDecrypt | bccsp/sw/aes.go:119-136 | encryption under the same IV undoes decryption |
| CipherBlockChaining.DecryptPanicsIff | bccsp/sw/aes.go:56-58 | decryption panics exactly on an IV without ciphertext |
| SessionPool.Provider.GetSession | bccsp/pkcs11/pkcs11.go:84-108 | takes the oldest cached session, or asks the token: up to nine refusals and a new session, or ten and a panic; the call is a run of the caller's own steps |
| SessionPool.Provider.ReturnSession | bccsp/pkcs11/pkcs11.go:110-118 | caches the session if there is room and closes it otherwise; the call is a run of the caller's own steps |
| SessionPool.Provider.ImportECKey | bccsp/pkcs11/pkcs11.go:366-434 | the call is a run of the caller's own steps that fails exactly if the token gives up; it obtains two sessions for a private key and one for a public key, holds them together, and returns every session that it obtains, also where it fails |
| SessionPool.StepKeepsInvariant | bccsp/pkcs11/pkcs11.go:84-118 | every step of every caller keeps cached and held sessions a partition of the open ones |
| SessionPool.PoolIsSafe | bccsp/pkcs11/impl.go:70-72 | after any interleaving the partition holds, and at quiescence at most the cache size are open |
| KeyStore.FileKeyStore.StoreKey | bccsp/sw/fileks.go:169-223 | writes the key's file, and fails exactly on a read-only store, no key, or no PEM form |
| KeyStore.FileKeyStore.GetSuffix | bccsp/sw/fileks.go:260-277 | the suffix of the first file, in order, that begins with the alias |
| KeyStore.FileKeyStore.GetKey | bccsp/sw/fileks.go:115-165 | never a key of another identifier; for a known identifier the key of the first kind; otherwise what the first file with the alias leads to, or the search |
| KeyStore.FileKeyStore.SearchForSKI | bccsp/sw/fileks.go:225-258 | the first file in order that holds a private key of the identifier, and none only if there is none |
| KeyStore.RunsWellKept | bccsp/sw/fileks.go:169-223 | every run of stores keeps every file named after the key it holds, and forgets no name |
| KeyStore.StoreThenKnown | bccsp/keystore.go:28-33 | from an empty directory, the identifier of every stored key is known |
| KeyStore.StoreThenGetIff | bccsp/sw/fileks.go:260-277 | the key just stored is returned exactly if the directory held no symmetric key, and for a private key no public key, of that identifier |
| KeyStore.PublicBeforePrivate | bccsp/sw/fileks.go:260-277 | a private key is hidden by its public key |
| KeyStore.HexInjective | bccsp/sw/fileks.go:121 | hexadecimal aliases determine the identifier |

## Left out

- MspProvider.BccspMsp.Setup: does not say what the fields hold after a failed set-up, and leaves out the signing identity and the TLS authorities, which repeat the same checks.
- CertificateChains.ChainsFromExact: does not model the memo table that path building keeps per intermediate, nor name constraints; for an intermediate reached on two paths the library reuses the first result.
- CertificateChains.ChainsFromDistinct: with that memo table the library can list a chain twice, which a caller that insists on one chain then rejects.
- CertificateChains.VerifyExact: the same memo table and name constraints.
- Msp.SanitizeCert: is absent both where the original fails and where it panics; the methods tell the two apart.
- KeyDerivation.DeriveOnToken: does not model failures of reading the secret from the token and of importing the result.
- KeyDerivation.DeriveEverywhere: the same failures, in which the token provider alone fails.
- BigEndian.VerifyWithToken: does not model a key that the token does not find, nor errors of the token other than a rejected signature.
- TokenSigning.SignWithToken: begins with the raw signature; a missing key and a failing token are left out.
- PolicyBuilder.SortStrings: sorts by character, where Go compares UTF-8 bytes; the library sort is a pure function whose result is written back.
- CipherBlockChaining.Pad: does not model that appending the padding may write into spare capacity of the caller's slice.
- SessionPool.Provider.ImportECKey: does not model the token objects that are created, only the sessions.
- SessionPool.PoolIsSafe: takes closing a session to succeed.
- KeyStore.FileKeyStore.StoreKey: does not model failing or partial writes, nor directories and unreadable files inside the store.
- PolicyRevocation.SteadyNeverRevoked: is exact for trees of And and Or over different principals; for other thresholds and repeated principals it is sufficient only.
- Completeness of nested policies in general: the code does not provide it.
- The policy text parser, protobuf encodings, the manager that routes identities to providers, configuration loading, RSA and HMAC keys, option records and factories: they would add only easy members.
- The orderer, peer, ledger and chaincode, and everything under bddtests.
