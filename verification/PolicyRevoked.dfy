/**
 Trees of And and Or, evaluated on numbered signatures: unless steady, signature 0 can make them reject.
 It completes an And below an Or, which then keeps signature 1, which a later rule of an enclosing And
 needs.
 */
module PolicyRevoked {
  import opened SignaturePolicies
  import opened PolicyEvaluator
  import opened PolicyStability
  import opened PolicyRevocation

  /** A tree of And and Or over two or more rules each. */
  predicate AndOr(e: Evaluator) {
    e.Leaf? ||
    (|e.policies| >= 2 && (e.n == 1 || e.n == |e.policies|) && forall k :: 0 <= k < |e.policies| ==> AndOr(e.policies[k]))
  }

  predicate AllAndOr(es: seq<Evaluator>) {
    forall k :: 0 <= k < |es| ==> AndOr(es[k])
  }

  // ---------------------------------------------------------------------------------------------
  // Numbered signatures, and leaves that name the number that they want.

  function Datum(i: nat): SignedData {
    SignedData([], seq(i, _ => 0), [])
  }

  function Data(count: nat): (sds: seq<SignedData>)
    ensures |sds| == count && forall i :: 0 <= i < count ==> sds[i] == Datum(i)
  {
    seq(count, i requires 0 <= i => Datum(i))
  }

  lemma {:induction false} DatumInjective(i: nat, j: nat)
    requires i != j
    ensures Datum(i).identity != Datum(j).identity
  {
    assert |Datum(i).identity| == i && |Datum(j).identity| == j;
  }

  const Nobody := UnknownPrincipal(-1)

  function ByNumber(p: Principal, sd: SignedData): bool {
    p.UnknownPrincipal? && p.classification >= 0 && sd == Datum(p.classification)
  }

  /** Evaluation with the numbered signatures. */
  function Numbered(e: Evaluator, used: seq<bool>): Outcome {
    Eval(ByNumber, e, Data(|used|), used)
  }

  function NumberedAll(es: seq<Evaluator>, used: seq<bool>): Tally {
    Count(ByNumber, es, Data(|used|), used)
  }

  /** The marks that an enclosing gate goes on with. */
  function After(e: Evaluator, used: seq<bool>): (r: seq<bool>)
    ensures |r| == |used|
  {
    if Numbered(e, used).accepted then Numbered(e, used).used else used
  }

  /** The count of a gate, from the rules before, at and after position k. */
  lemma {:induction false} CountSplit(es: seq<Evaluator>, used: seq<bool>, k: nat)
    requires k < |es|
    ensures var t := NumberedAll(es[..k], used);
            var u := NumberedAll(es[k + 1..], After(es[k], t.used));
            NumberedAll(es, used) == Tally(t.verified + (if Numbered(es[k], t.used).accepted then 1 else 0) + u.verified, u.used)
  {
    var rest := [es[k]] + es[k + 1..];
    assert es == es[..k] + rest;
    CountConcat(ByNumber, es[..k], rest, Data(|used|), used);
    CountFirst(es[k], es[k + 1..], NumberedAll(es[..k], used).used);
  }

  lemma {:induction false} CountParts(pre: seq<Evaluator>, x: Evaluator, post: seq<Evaluator>, used: seq<bool>)
    ensures var t := NumberedAll(pre, used);
            var u := NumberedAll(post, After(x, t.used));
            NumberedAll(pre + [x] + post, used) ==
            Tally(t.verified + (if Numbered(x, t.used).accepted then 1 else 0) + u.verified, u.used)
  {
    var xs := pre + [x] + post;
    assert xs[..|pre|] == pre && xs[|pre|] == x && xs[|pre| + 1..] == post;
    CountSplit(xs, used, |pre|);
  }

  lemma {:induction false} CountFirst(e: Evaluator, es: seq<Evaluator>, used: seq<bool>)
    ensures var u := NumberedAll(es, After(e, used));
            NumberedAll([e] + es, used) == Tally(u.verified + (if Numbered(e, used).accepted then 1 else 0), u.used)
  {
    assert ([e] + es)[0] == e && ([e] + es)[1..] == es;
  }

  // ---------------------------------------------------------------------------------------------
  // Rules that nobody answers.

  function Off(e: Evaluator): Evaluator
    decreases e, 1
  {
    match e
    case Leaf(_) => Leaf(Nobody)
    case Gate(n, policies) => Gate(n, OffAll(policies))
  }

  function OffAll(es: seq<Evaluator>): (r: seq<Evaluator>)
    ensures |r| == |es| && forall k :: 0 <= k < |es| ==> r[k] == Off(es[k])
    decreases es, 0
  {
    if es == [] then [] else [Off(es[0])] + OffAll(es[1..])
  }

  lemma {:induction false} Dead(e: Evaluator, used: seq<bool>)
    requires AndOr(e)
    ensures !Numbered(Off(e), used).accepted
    decreases e, 1
  {
    if e.Gate? {
      DeadAll(e.policies, OffAll(e.policies), used);
    }
  }

  lemma {:induction false} DeadAll(es: seq<Evaluator>, off: seq<Evaluator>, used: seq<bool>)
    requires AllAndOr(es) && |off| == |es| && forall k :: 0 <= k < |es| ==> off[k] == Off(es[k])
    ensures NumberedAll(off, used) == Tally(0, used)
    decreases es, 0
  {
    if es != [] {
      Dead(es[0], used);
      DeadAll(es[1..], off[1..], used);
    }
  }

  /** Only the rule at position k is answered. */
  function Alone(es: seq<Evaluator>, k: nat, x: Evaluator): seq<Evaluator>
    requires k < |es|
  {
    OffAll(es)[k := x]
  }

  lemma {:induction false} AloneCounts(es: seq<Evaluator>, k: nat, x: Evaluator, used: seq<bool>)
    requires AllAndOr(es) && k < |es|
    ensures NumberedAll(Alone(es, k, x), used) == Tally(if Numbered(x, used).accepted then 1 else 0, After(x, used))
  {
    var all := Alone(es, k, x);
    DeadAll(es[..k], all[..k], used);
    DeadAll(es[k + 1..], all[k + 1..], After(x, used));
    CountSplit(all, used, k);
  }

  // ---------------------------------------------------------------------------------------------
  // Rules with just enough answers.

  ghost predicate Free(used: seq<bool>, a: nat, b: nat) {
    b <= |used| && forall i :: a <= i < b ==> !used[i]
  }

  /** The marks after a rule that takes the signatures from a to b, if they are free. */
  ghost function Taken(used: seq<bool>, a: nat, b: nat): (r: seq<bool>)
    ensures |r| == |used|
  {
    if Free(used, a, b) then seq(|used|, i requires 0 <= i < |used| => used[i] || a <= i < b) else used
  }

  lemma {:induction false} TakenTwice(used: seq<bool>, a: nat, b: nat, c: nat)
    requires a <= b <= c <= |used|
    ensures Free(used, a, c) <==> Free(used, a, b) && Free(Taken(used, a, b), b, c)
    ensures Free(used, a, c) ==> Taken(used, a, c) == Taken(Taken(used, a, b), b, c)
  {
    var mid := Taken(used, a, b);
    assert forall i :: b <= i < c ==> mid[i] == used[i];
  }

  lemma {:induction false} AloneDecides(es: seq<Evaluator>, k: nat, x: Evaluator, used: seq<bool>)
    requires AllAndOr(es) && k < |es|
    ensures Numbered(Gate(1, Alone(es, k, x)), used).accepted == Numbered(x, used).accepted
    ensures After(Gate(1, Alone(es, k, x)), used) == After(x, used)
  {
    AloneCounts(es, k, x, used);
  }

  // ---------------------------------------------------------------------------------------------
  // Rules that claim the signatures from a to b: accepted exactly if these are free, which they then take.

  ghost predicate ClaimsAt(e: Evaluator, a: nat, b: nat, used: seq<bool>) {
    (Numbered(e, used).accepted <==> Free(used, a, b)) && After(e, used) == Taken(used, a, b)
  }

  ghost predicate Claims(e: Evaluator, a: nat, b: nat) {
    forall used {:trigger ClaimsAt(e, a, b, used)} | b <= |used| :: ClaimsAt(e, a, b, used)
  }

  ghost predicate AllClaimAt(es: seq<Evaluator>, a: nat, b: nat, used: seq<bool>) {
    && (NumberedAll(es, used).verified == |es| <==> Free(used, a, b))
    && (Free(used, a, b) ==> NumberedAll(es, used).used == Taken(used, a, b))
  }

  ghost predicate AllClaim(es: seq<Evaluator>, a: nat, b: nat) {
    forall used {:trigger AllClaimAt(es, a, b, used)} | b <= |used| :: AllClaimAt(es, a, b, used)
  }

  lemma {:induction false} LeafClaims(a: nat)
    ensures Claims(Leaf(UnknownPrincipal(a)), a, a + 1)
  {
    forall i: nat | i != a ensures Datum(i) != Datum(a) { DatumInjective(i, a); }
    forall used: seq<bool> {:trigger ClaimsAt(Leaf(UnknownPrincipal(a)), a, a + 1, used)} | a + 1 <= |used|
      ensures ClaimsAt(Leaf(UnknownPrincipal(a)), a, a + 1, used)
    {
      FirstAcceptedUnique(ByNumber, UnknownPrincipal(a), Data(|used|), used, if used[a] then |used| else a);
    }
  }

  lemma {:induction false} OrClaims(es: seq<Evaluator>, k: nat, x: Evaluator, a: nat, b: nat)
    requires AllAndOr(es) && k < |es| && Claims(x, a, b)
    ensures Claims(Gate(1, Alone(es, k, x)), a, b)
  {
    forall used: seq<bool> {:trigger ClaimsAt(Gate(1, Alone(es, k, x)), a, b, used)} | b <= |used|
      ensures ClaimsAt(Gate(1, Alone(es, k, x)), a, b, used)
    {
      assert ClaimsAt(x, a, b, used);
      AloneDecides(es, k, x, used);
    }
  }

  lemma {:induction false} AndClaims(xs: seq<Evaluator>, a: nat, b: nat)
    requires AllClaim(xs, a, b)
    ensures Claims(Gate(|xs|, xs), a, b)
  {
    forall used: seq<bool> {:trigger ClaimsAt(Gate(|xs|, xs), a, b, used)} | b <= |used|
      ensures ClaimsAt(Gate(|xs|, xs), a, b, used)
    {
      assert AllClaimAt(xs, a, b, used) && NumberedAll(xs, used).verified <= |xs|;
    }
  }

  lemma {:induction false} JoinClaims(x: Evaluator, xs: seq<Evaluator>, a: nat, b: nat, c: nat)
    requires a <= b <= c && Claims(x, a, b) && AllClaim(xs, b, c)
    ensures AllClaim([x] + xs, a, c)
  {
    forall used: seq<bool> {:trigger AllClaimAt([x] + xs, a, c, used)} | c <= |used|
      ensures AllClaimAt([x] + xs, a, c, used)
    {
      assert ClaimsAt(x, a, b, used) && AllClaimAt(xs, b, c, Taken(used, a, b));
      CountFirst(x, xs, used);
      TakenTwice(used, a, b, c);
    }
  }

  // ---------------------------------------------------------------------------------------------
  // Giving a tree its signatures.

  /** The same tree, with other principals. */
  predicate SameShape(e: Evaluator, x: Evaluator) {
    match (e, x)
    case (Leaf(_), Leaf(_)) => true
    case (Gate(n, es), Gate(m, xs)) =>
      m == n && |xs| == |es| && forall k :: 0 <= k < |es| ==> SameShape(es[k], xs[k])
    case _ => false
  }

  predicate SameShapes(es: seq<Evaluator>, xs: seq<Evaluator>) {
    |xs| == |es| && forall k :: 0 <= k < |es| ==> SameShape(es[k], xs[k])
  }

  lemma {:induction false} OffShape(e: Evaluator)
    ensures SameShape(e, Off(e))
    decreases e
  {
    if e.Gate? {
      forall k | 0 <= k < |e.policies| ensures SameShape(e.policies[k], Off(e).policies[k]) {
        OffShape(e.policies[k]);
      }
    }
  }

  lemma {:induction false} AloneShapes(es: seq<Evaluator>, k: nat, x: Evaluator)
    requires k < |es| && SameShape(es[k], x)
    ensures SameShapes(es, Alone(es, k, x))
  {
    forall i | 0 <= i < |es| { OffShape(es[i]); }
  }

  function Size(e: Evaluator): nat
    decreases e, 1
  {
    match e
    case Leaf(_) => 1
    case Gate(_, policies) => SizeAll(policies)
  }

  function SizeAll(es: seq<Evaluator>): nat
    decreases es, 0
  {
    if es == [] then 0 else Size(es[0]) + SizeAll(es[1..])
  }

  lemma {:induction false} SizeAt(es: seq<Evaluator>, k: nat)
    requires k < |es|
    ensures SizeAll(es) == SizeAll(es[..k]) + Size(es[k]) + SizeAll(es[k + 1..])
    decreases |es|
  {
    if k == 0 {
      assert es[..0] == [];
    } else {
      SizeAt(es[1..], k - 1);
      assert es[..k][0] == es[0] && es[..k][1..] == es[1..][..k - 1] && es[1..][k..] == es[k + 1..];
    }
  }

  /** Every tree can be made to claim signatures: two at least, if it gives something back. */
  lemma {:induction false} MakeClaim(e: Evaluator, a: nat) returns (x: Evaluator, b: nat)
    requires AndOr(e)
    ensures SameShape(e, x) && Claims(x, a, b) && a < b <= a + Size(e)
    ensures !NoRollback(e) ==> b >= a + 2
    decreases e, 1
  {
    match e
    case Leaf(_) =>
      x, b := Leaf(UnknownPrincipal(a)), a + 1;
      LeafClaims(a);
    case Gate(n, policies) =>
      if n == 1 {
        var k := 0;
        if i :| 0 <= i < |policies| && !NoRollback(policies[i]) {
          k := i;
        }
        var y;
        y, b := MakeClaim(policies[k], a);
        x := Gate(1, Alone(policies, k, y));
        OrClaims(policies, k, y, a, b);
        AloneShapes(policies, k, y);
        SizeAt(policies, k);
      } else {
        var ys;
        ys, b := MakeClaims(policies, a);
        x := Gate(n, ys);
        AndClaims(ys, a, b);
      }
  }

  lemma {:induction false} MakeClaims(es: seq<Evaluator>, a: nat) returns (xs: seq<Evaluator>, b: nat)
    requires AllAndOr(es)
    ensures SameShapes(es, xs) && AllClaim(xs, a, b) && a + |es| <= b <= a + SizeAll(es)
    decreases es, 0
  {
    if es == [] {
      xs, b := [], a;
    } else {
      var x, m := MakeClaim(es[0], a);
      xs, b := MakeClaims(es[1..], m);
      JoinClaims(x, xs, a, m, b);
      xs := [x] + xs;
    }
  }

  // ---------------------------------------------------------------------------------------------
  // Trees with an And below an Or: accepted in any case, but taking signature 1 only if 0 is there.
  // The signatures before w are reserved for that.

  /** With 0 used, nothing before w changes; otherwise 1 is taken. From h on, the next signatures may be, up to g. */
  ghost predicate Gapped(u: seq<bool>, v: seq<bool>, w: nat, h: nat, g: nat)
    requires 2 <= w <= |u|
  {
    && |v| == |u|
    && (forall i :: w <= i < |u| && !(h <= i < g) ==> v[i] == u[i])
    && (if u[0] then forall i :: 0 <= i < w ==> v[i] == u[i] else v[1])
  }

  ghost predicate Ready(used: seq<bool>, w: nat, h: nat, g: nat) {
    2 <= w <= h <= g <= |used| && Free(used, 1, w) && Free(used, h, g)
  }

  ghost predicate GapAt(e: Evaluator, w: nat, h: nat, g: nat, used: seq<bool>)
    requires Ready(used, w, h, g)
  {
    Numbered(e, used).accepted && Gapped(used, Numbered(e, used).used, w, h, g)
  }

  ghost predicate HasGap(e: Evaluator, w: nat, h: nat, g: nat) {
    forall used {:trigger GapAt(e, w, h, g, used)} | Ready(used, w, h, g) :: GapAt(e, w, h, g, used)
  }

  /** Rules i and j of an Or are answered, and no other. */
  function Pair(es: seq<Evaluator>, i: nat, x: Evaluator, j: nat, y: Evaluator): seq<Evaluator>
    requires i < j < |es|
  {
    OffAll(es)[i := x][j := y]
  }

  lemma {:induction false} PairCounts(es: seq<Evaluator>, i: nat, x: Evaluator, j: nat, y: Evaluator, used: seq<bool>)
    requires AllAndOr(es) && i < j < |es|
    ensures var mid := After(x, used);
            NumberedAll(Pair(es, i, x, j, y), used) ==
            Tally((if Numbered(x, used).accepted then 1 else 0) + (if Numbered(y, mid).accepted then 1 else 0), After(y, mid))
  {
    var all, mid := Pair(es, i, x, j, y), After(x, used);
    assert all[..j] == Alone(es[..j], i, x);
    AloneCounts(es[..j], i, x, used);
    DeadAll(es[j + 1..], all[j + 1..], After(y, mid));
    CountSplit(all, used, j);
  }

  /** Taking the signatures from 0 to b, and those from h to g, in either order. */
  lemma {:induction false} GapTaken(used: seq<bool>, b: nat, w: nat, h: nat, g: nat)
    requires 2 <= b <= w && Ready(used, w, h, g)
    ensures var u := Taken(used, 0, b);
            Free(u, h, g) && Gapped(used, Taken(u, h, g), w, h, g)
    ensures Gapped(used, Taken(Taken(used, h, g), 0, b), w, h, g)
  {
  }

  lemma {:induction false} OrGapAt(es: seq<Evaluator>, i: nat, x: Evaluator, j: nat, y: Evaluator, b: nat, w: nat, h: nat, g: nat,
                                   used: seq<bool>)
    requires AllAndOr(es) && i < j < |es| && 2 <= b <= w && Ready(used, w, h, g)
    requires || (ClaimsAt(x, 0, b, used) && ClaimsAt(y, h, g, Taken(used, 0, b)))
             || (ClaimsAt(x, h, g, used) && ClaimsAt(y, 0, b, Taken(used, h, g)))
    ensures GapAt(Gate(1, Pair(es, i, x, j, y)), w, h, g, used)
  {
    PairCounts(es, i, x, j, y, used);
    GapTaken(used, b, w, h, g);
  }

  lemma {:induction false} OrGap(es: seq<Evaluator>, i: nat, x: Evaluator, j: nat, y: Evaluator, b: nat, w: nat, h: nat, g: nat)
    requires AllAndOr(es) && i < j < |es| && 2 <= b <= w
    requires (Claims(x, 0, b) && Claims(y, h, g)) || (Claims(x, h, g) && Claims(y, 0, b))
    ensures HasGap(Gate(1, Pair(es, i, x, j, y)), w, h, g)
  {
    forall used {:trigger GapAt(Gate(1, Pair(es, i, x, j, y)), w, h, g, used)} | Ready(used, w, h, g)
      ensures GapAt(Gate(1, Pair(es, i, x, j, y)), w, h, g, used)
    {
      OrGapAt(es, i, x, j, y, b, w, h, g, used);
    }
  }

  lemma {:induction false} AndGapAt(pre: seq<Evaluator>, x: Evaluator, post: seq<Evaluator>, w: nat, h: nat, h1: nat, h2: nat, g: nat,
                                    used: seq<bool>, u1: seq<bool>)
    requires h <= h1 <= h2 <= g && Ready(used, w, h, g) && u1 == Taken(used, h, h1) && Ready(u1, w, h1, h2)
    requires Free(used, h, h1) && AllClaimAt(pre, h, h1, used) && GapAt(x, w, h1, h2, u1)
    requires AllClaimAt(post, h2, g, Numbered(x, u1).used)
    ensures var xs := pre + [x] + post; GapAt(Gate(|xs|, xs), w, h, g, used)
  {
    GapSteps(used, u1, Numbered(x, u1).used, w, h, h1, h2, g);
    CountParts(pre, x, post, used);
  }

  /** A gap among rules that claim the signatures around it. */
  lemma {:induction false} AndGap(pre: seq<Evaluator>, x: Evaluator, post: seq<Evaluator>, w: nat, h: nat, h1: nat, h2: nat, g: nat)
    requires h <= h1 <= h2 <= g && AllClaim(pre, h, h1) && HasGap(x, w, h1, h2) && AllClaim(post, h2, g)
    ensures var xs := pre + [x] + post; HasGap(Gate(|xs|, xs), w, h, g)
  {
    var xs := pre + [x] + post;
    forall used {:trigger GapAt(Gate(|xs|, xs), w, h, g, used)} | Ready(used, w, h, g)
      ensures GapAt(Gate(|xs|, xs), w, h, g, used)
    {
      var u1 := Taken(used, h, h1);
      GapSteps(used, u1, u1, w, h, h1, h2, g);
      AndGapAt(pre, x, post, w, h, h1, h2, g, used, u1);
    }
  }

  lemma {:induction false} GapSteps(used: seq<bool>, u1: seq<bool>, u2: seq<bool>, w: nat, h: nat, h1: nat, h2: nat, g: nat)
    requires h <= h1 <= h2 <= g && Ready(used, w, h, g) && u1 == Taken(used, h, h1)
    ensures Free(used, h, h1) && Ready(u1, w, h1, h2)
    ensures Gapped(u1, u2, w, h1, h2) ==> Free(u2, h2, g) && Gapped(used, Taken(u2, h2, g), w, h, g)
  {
  }

  lemma {:induction false} PairShapes(es: seq<Evaluator>, i: nat, x: Evaluator, j: nat, y: Evaluator)
    requires i < j < |es| && SameShape(es[i], x) && SameShape(es[j], y)
    ensures SameShapes(es, Pair(es, i, x, j, y))
  {
    forall k | 0 <= k < |es| { OffShape(es[k]); }
  }

  lemma {:induction false} JoinShapes(es: seq<Evaluator>, k: nat, pre: seq<Evaluator>, x: Evaluator, post: seq<Evaluator>)
    requires k < |es| && SameShapes(es[..k], pre) && SameShape(es[k], x) && SameShapes(es[k + 1..], post)
    ensures SameShapes(es, pre + [x] + post)
  {
    var xs := pre + [x] + post;
    forall i | 0 <= i < |es| ensures SameShape(es[i], xs[i]) {
      assert i < k ==> es[i] == es[..k][i];
      assert i > k ==> es[i] == es[k + 1..][i - k - 1] && xs[i] == post[i - k - 1];
    }
  }

  lemma {:induction false} GapInOr(es: seq<Evaluator>, k: nat, w: nat, h: nat) returns (xs: seq<Evaluator>, g: nat)
    requires AllAndOr(es) && |es| >= 2 && k < |es| && !NoRollback(es[k]) && SizeAll(es) <= w <= h
    ensures SameShapes(es, xs) && HasGap(Gate(1, xs), w, h, g) && h <= g
  {
    SizeAt(es, k);
    var y, b := MakeClaim(es[k], 0);
    var z;
    z, g := MakeClaim(es[if k == 0 then 1 else 0], h);
    if k == 0 {
      PairShapes(es, 0, y, 1, z);
      OrGap(es, 0, y, 1, z, b, w, h, g);
      xs := Pair(es, 0, y, 1, z);
    } else {
      PairShapes(es, 0, z, k, y);
      OrGap(es, 0, z, k, y, b, w, h, g);
      xs := Pair(es, 0, z, k, y);
    }
  }

  /** Every tree that is not firm can be given a gap. */
  lemma {:induction false} MakeGap(e: Evaluator, w: nat, h: nat) returns (x: Evaluator, g: nat)
    requires AndOr(e) && !Firm(e) && Size(e) <= w <= h
    ensures SameShape(e, x) && HasGap(x, w, h, g) && h <= g
    decreases e, 1
  {
    var xs;
    if e.n == 1 {
      var k :| 0 <= k < |e.policies| && !NoRollback(e.policies[k]);
      xs, g := GapInOr(e.policies, k, w, h);
    } else {
      var k :| 0 <= k < |e.policies| && !Firm(e.policies[k]);
      xs, g := GapInAnd(e.policies, k, w, h);
    }
    x := Gate(e.n, xs);
  }

  lemma {:induction false} GapInAnd(es: seq<Evaluator>, k: nat, w: nat, h: nat) returns (xs: seq<Evaluator>, g: nat)
    requires AllAndOr(es) && k < |es| && !Firm(es[k]) && SizeAll(es) <= w <= h
    ensures SameShapes(es, xs) && HasGap(Gate(|xs|, xs), w, h, g) && h <= g
    decreases es, 0
  {
    SizeAt(es, k);
    var pre, h1 := MakeClaims(es[..k], h);
    var y, h2 := MakeGap(es[k], w, h1);
    var post;
    post, g := MakeClaims(es[k + 1..], h2);
    AndGap(pre, y, post, w, h, h1, h2, g);
    JoinShapes(es, k, pre, y, post);
    xs := pre + [y] + post;
  }

  // ---------------------------------------------------------------------------------------------
  // Trees that are accepted exactly if signature 0 is not there.

  ghost predicate RevokesAt(e: Evaluator, used: seq<bool>)
    requires used != []
  {
    Numbered(e, used).accepted <==> used[0]
  }

  ghost predicate Revokes(e: Evaluator, w: nat, h: nat, g: nat) {
    forall used {:trigger RevokesAt(e, used)} | Ready(used, w, h, g) :: RevokesAt(e, used)
  }

  lemma {:induction false} AndRevokesAt(pre: seq<Evaluator>, x: Evaluator, post: seq<Evaluator>, w: nat, h: nat, h1: nat, g: nat, c: nat,
                                        used: seq<bool>, u1: seq<bool>)
    requires h <= h1 <= g && 2 <= c <= w && Ready(used, w, h, g) && u1 == Taken(used, h, h1) && Ready(u1, w, h1, g)
    requires Free(used, h, h1) && AllClaimAt(pre, h, h1, used) && GapAt(x, w, h1, g, u1)
    requires AllClaimAt(post, 1, c, Numbered(x, u1).used)
    ensures var xs := pre + [x] + post; RevokesAt(Gate(|xs|, xs), used)
  {
    var u2 := Numbered(x, u1).used;
    GapSteps(used, u1, u2, w, h, h1, g, g);
    assert Free(u2, 1, c) <==> used[0];
    CountParts(pre, x, post, used);
  }

  /** Behind a gap, a rule needs signature 1. */
  lemma {:induction false} AndRevokes(pre: seq<Evaluator>, x: Evaluator, post: seq<Evaluator>, w: nat, h: nat, h1: nat, g: nat, c: nat)
    requires h <= h1 <= g && 2 <= c <= w && AllClaim(pre, h, h1) && HasGap(x, w, h1, g) && AllClaim(post, 1, c)
    ensures var xs := pre + [x] + post; Revokes(Gate(|xs|, xs), w, h, g)
  {
    var xs := pre + [x] + post;
    forall used {:trigger RevokesAt(Gate(|xs|, xs), used)} | Ready(used, w, h, g)
      ensures RevokesAt(Gate(|xs|, xs), used)
    {
      var u1 := Taken(used, h, h1);
      GapSteps(used, u1, u1, w, h, h1, g, g);
      AndRevokesAt(pre, x, post, w, h, h1, g, c, used, u1);
    }
  }

  lemma {:induction false} LastRevokes(pre: seq<Evaluator>, x: Evaluator, w: nat, h: nat, h1: nat, g: nat)
    requires h <= h1 <= g && AllClaim(pre, h, h1) && Revokes(x, w, h1, g)
    ensures var xs := pre + [x] + []; Revokes(Gate(|xs|, xs), w, h, g)
  {
    var xs := pre + [x] + [];
    forall used {:trigger RevokesAt(Gate(|xs|, xs), used)} | Ready(used, w, h, g)
      ensures RevokesAt(Gate(|xs|, xs), used)
    {
      var u1 := Taken(used, h, h1);
      GapSteps(used, u1, u1, w, h, h1, g, g);
      assert AllClaimAt(pre, h, h1, used) && RevokesAt(x, u1);
      CountParts(pre, x, [], used);
    }
  }

  lemma {:induction false} OrRevokes(es: seq<Evaluator>, k: nat, x: Evaluator, w: nat, h: nat, g: nat)
    requires AllAndOr(es) && k < |es| && Revokes(x, w, h, g)
    ensures Revokes(Gate(1, Alone(es, k, x)), w, h, g)
  {
    forall used {:trigger RevokesAt(Gate(1, Alone(es, k, x)), used)} | Ready(used, w, h, g)
      ensures RevokesAt(Gate(1, Alone(es, k, x)), used)
    {
      assert RevokesAt(x, used);
      AloneDecides(es, k, x, used);
    }
  }

  lemma {:induction false} RevokeAfterGap(es: seq<Evaluator>, k: nat, w: nat, h: nat) returns (xs: seq<Evaluator>, g: nat)
    requires AllAndOr(es) && k < |es| - 1 && !Firm(es[k]) && SizeAll(es) < w <= h
    ensures SameShapes(es, xs) && Revokes(Gate(|xs|, xs), w, h, g) && h <= g
  {
    SizeAt(es, k);
    var pre, h1 := MakeClaims(es[..k], h);
    var y;
    y, g := MakeGap(es[k], w, h1);
    var post, c := MakeClaims(es[k + 1..], 1);
    AndRevokes(pre, y, post, w, h, h1, g, c);
    JoinShapes(es, k, pre, y, post);
    xs := pre + [y] + post;
  }

  /** Every tree that is not steady can be revoked by signature 0. */
  lemma {:induction false} MakeRevoke(e: Evaluator, w: nat, h: nat) returns (x: Evaluator, g: nat)
    requires AndOr(e) && !Steady(e) && Size(e) < w <= h
    ensures SameShape(e, x) && Revokes(x, w, h, g) && h <= g
    decreases e, 1
  {
    var xs;
    if e.n == 1 {
      var k :| 0 <= k < |e.policies| && !Steady(e.policies[k]);
      xs, g := RevokeInOr(e.policies, k, w, h);
    } else if k :| 0 <= k < |e.policies| - 1 && !Firm(e.policies[k]) {
      xs, g := RevokeAfterGap(e.policies, k, w, h);
    } else {
      xs, g := RevokeInLast(e.policies, w, h);
    }
    x := Gate(e.n, xs);
  }

  lemma {:induction false} RevokeInOr(es: seq<Evaluator>, k: nat, w: nat, h: nat) returns (xs: seq<Evaluator>, g: nat)
    requires AllAndOr(es) && k < |es| && !Steady(es[k]) && SizeAll(es) < w <= h
    ensures SameShapes(es, xs) && Revokes(Gate(1, xs), w, h, g) && h <= g
    decreases es, 0
  {
    SizeAt(es, k);
    var y;
    y, g := MakeRevoke(es[k], w, h);
    OrRevokes(es, k, y, w, h, g);
    AloneShapes(es, k, y);
    xs := Alone(es, k, y);
  }

  lemma {:induction false} RevokeInLast(es: seq<Evaluator>, w: nat, h: nat) returns (xs: seq<Evaluator>, g: nat)
    requires AllAndOr(es) && es != [] && !Steady(es[|es| - 1]) && SizeAll(es) < w <= h
    ensures SameShapes(es, xs) && Revokes(Gate(|xs|, xs), w, h, g) && h <= g
    decreases es, 0
  {
    var k := |es| - 1;
    SizeAt(es, k);
    var pre, h1 := MakeClaims(es[..k], h);
    var y;
    y, g := MakeRevoke(es[k], w, h1);
    LastRevokes(pre, y, w, h, h1, g);
    JoinShapes(es, k, pre, y, []);
    xs := pre + [y] + [];
  }
}
