/**
 Signature policies and the evaluators they compile to.

 A policy is a tree of threshold gates over "signed by principal i" leaves. Compiling resolves the
 principal indices and yields an evaluator: a closure per node in the original, a tree of the
 captured values here. Deserializing an identity, matching it against a principal and checking its
 signature is one pure question, the oracle `ok(principal, signedDatum)`.
 */
module SignaturePolicies {
  import opened Prelude

  datatype RoleType = Member | Admin | OtherRole(code: int)

  /** An MSP principal, with its content already unmarshalled. */
  datatype Principal =
    | RolePrincipal(role: RoleType, msp: string)
    | UnitPrincipal(ouMsp: string, ou: string, certifiers: Bytes)
    | IdentityPrincipal(serialized: Bytes)
    | MalformedPrincipal
    | UnknownPrincipal(classification: int)

  datatype SignedData = SignedData(data: Bytes, identity: Bytes, signature: Bytes)

  type Oracle = (Principal, SignedData) -> bool

  datatype SignaturePolicy =
    | Absent         // a nil element
    | Unrecognized   // an element whose type is not set
    | SignedBy(index: int)
    | NOutOf(n: int, rules: seq<SignaturePolicy>)

  datatype CompileError = EmptyElement | IndexOutOfRange(index: int) | UnknownType

  datatype Evaluator = Leaf(principal: Principal) | Gate(n: int, policies: seq<Evaluator>)

  /** Every node is known and every leaf names one of the `count` principals. */
  predicate WellFormed(policy: SignaturePolicy, count: nat) {
    match policy
    case Absent => false
    case Unrecognized => false
    case SignedBy(index) => 0 <= index < count
    case NOutOf(_, rules) => forall k :: 0 <= k < |rules| ==> WellFormed(rules[k], count)
  }

  /** `e` has the shape and thresholds of `policy`, and its leaves the principals that it names. */
  predicate Mirrors(policy: SignaturePolicy, identities: seq<Principal>, e: Evaluator) {
    match (policy, e)
    case (SignedBy(index), Leaf(p)) => 0 <= index < |identities| && p == identities[index]
    case (NOutOf(n, rules), Gate(m, es)) =>
      m == n && |es| == |rules| &&
      forall k :: 0 <= k < |rules| ==> Mirrors(rules[k], identities, es[k])
    case _ => false
  }

  function Compile(policy: SignaturePolicy, identities: seq<Principal>): (r: Result<Evaluator, CompileError>)
    ensures r.Ok? <==> WellFormed(policy, |identities|)
    ensures r.Ok? ==> Mirrors(policy, identities, r.value)
    decreases policy, 1
  {
    match policy
    case Absent => Err(EmptyElement)
    case Unrecognized => Err(UnknownType)
    case SignedBy(index) =>
      if index < 0 || index >= |identities| then Err(IndexOutOfRange(index))
      else Ok(Leaf(identities[index]))
    case NOutOf(n, rules) =>
      match CompileAll(rules, identities)
      case Err(e) => Err(e)
      case Ok(es) => Ok(Gate(n, es))
  }

  function CompileAll(rules: seq<SignaturePolicy>, identities: seq<Principal>):
    (r: Result<seq<Evaluator>, CompileError>)
    ensures r.Ok? <==> forall k :: 0 <= k < |rules| ==> WellFormed(rules[k], |identities|)
    ensures r.Ok? ==> |r.value| == |rules|
    ensures r.Ok? ==> forall k :: 0 <= k < |rules| ==> Mirrors(rules[k], identities, r.value[k])
    decreases rules, 0
  {
    if rules == [] then Ok([])
    else
      match Compile(rules[0], identities)
      case Err(e) => Err(e)
      case Ok(first) =>
        match CompileAll(rules[1..], identities)
        case Err(e) => Err(e)
        case Ok(rest) => Ok([first] + rest)
  }

  /** Two evaluators mirroring one policy are the same: the contract of Compile fixes its result. */
  lemma {:induction false} MirrorsIsFunctional(policy: SignaturePolicy, identities: seq<Principal>,
                                               e: Evaluator, f: Evaluator)
    requires Mirrors(policy, identities, e) && Mirrors(policy, identities, f)
    ensures e == f
    decreases policy
  {
    if policy.NOutOf? {
      forall k | 0 <= k < |policy.rules| ensures e.policies[k] == f.policies[k] {
        MirrorsIsFunctional(policy.rules[k], identities, e.policies[k], f.policies[k]);
      }
      assert e.policies == f.policies;
    }
  }

  datatype Envelope = Envelope(version: int, rule: SignaturePolicy, identities: seq<Principal>)

  datatype PolicyError = Undecodable | WrongVersion(version: int) | CompileFailed(error: CompileError)

  /** NewPolicy: `envelope` is absent when the policy bytes do not unmarshal. */
  function NewPolicy(envelope: Option<Envelope>): (r: Result<Evaluator, PolicyError>)
    ensures r.Ok? <==> envelope.Some? && envelope.value.version == 0 &&
                       WellFormed(envelope.value.rule, |envelope.value.identities|)
    ensures r.Ok? ==> Mirrors(envelope.value.rule, envelope.value.identities, r.value)
    ensures r == Err(Undecodable) <==> envelope.None?
    ensures forall v :: r == Err(WrongVersion(v)) <==> envelope.Some? && envelope.value.version == v != 0
  {
    match envelope
    case None => Err(Undecodable)
    case Some(env) =>
      if env.version != 0 then Err(WrongVersion(env.version))
      else match Compile(env.rule, env.identities)
           case Err(e) => Err(CompileFailed(e))
           case Ok(e) => Ok(e)
  }
}
