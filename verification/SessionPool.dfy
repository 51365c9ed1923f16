/**
 The pool of PKCS#11 sessions: all callers together, as a state machine over the single steps of their
 calls, and the code of one caller, whose calls are runs of that machine.
 */
module SessionPool {
  import opened Prelude

  type Handle = nat

  const SessionCacheSize: nat := 10

  // ---------------------------------------------------------------------------------------------
  // All callers together.

  type Caller = nat

  /**
   A caller's part of the state: the sessions it holds, innermost last; how often it has asked the
   token for one in vain, while asking; the session it is about to close.
   */
  datatype Local = Local(held: seq<Handle>, asking: Option<nat>, closing: Option<Handle>)

  datatype State = State(cached: seq<Handle>, open: set<Handle>, callers: map<Caller, Local>)

  datatype Action =
    | Take(caller: Caller)                      // receive from the channel
    | FindEmpty(caller: Caller)                 // the channel is empty: ask the token
    | Refused(caller: Caller)                   // the token fails
    | Opened(caller: Caller, handle: Handle)    // the token opens a session
    | GiveUp(caller: Caller)                    // ten failures: panic, which runs the deferred returns
    | Cache(caller: Caller)                     // send the innermost session to the channel
    | FindFull(caller: Caller)                  // the channel is full: close the innermost session
    | Close(caller: Caller)

  const Idle := Local([], None, None)

  function LocalOf(s: State, t: Caller): Local {
    if t in s.callers then s.callers[t] else Idle
  }

  predicate Running(l: Local) {
    l.asking.None? && l.closing.None?
  }

  predicate Enabled(s: State, a: Action) {
    var l := LocalOf(s, a.caller);
    match a
    case Take(_) => Running(l) && s.cached != []
    case FindEmpty(_) => Running(l) && s.cached == []
    case Refused(_) => l.asking.Some? && l.asking.value < 10
    case Opened(_, h) => l.asking.Some? && l.asking.value < 10 && h !in s.open
    case GiveUp(_) => l.asking == Some(10)
    case Cache(_) => Running(l) && l.held != [] && |s.cached| < SessionCacheSize
    case FindFull(_) => Running(l) && l.held != [] && |s.cached| >= SessionCacheSize
    case Close(_) => l.closing.Some?
  }

  function Step(s: State, a: Action): State
    requires Enabled(s, a)
  {
    var t := a.caller;
    var l := LocalOf(s, t);
    match a
    case Take(_) =>
      s.(cached := s.cached[1..], callers := s.callers[t := l.(held := l.held + [s.cached[0]])])
    case FindEmpty(_) => s.(callers := s.callers[t := l.(asking := Some(0))])
    case Refused(_) => s.(callers := s.callers[t := l.(asking := Some(l.asking.value + 1))])
    case Opened(_, h) =>
      s.(open := s.open + {h}, callers := s.callers[t := l.(held := l.held + [h], asking := None)])
    case GiveUp(_) => s.(callers := s.callers[t := l.(asking := None)])
    case Cache(_) =>
      s.(cached := s.cached + [l.held[|l.held| - 1]], callers := s.callers[t := l.(held := l.held[..|l.held| - 1])])
    case FindFull(_) =>
      s.(callers := s.callers[t := l.(held := l.held[..|l.held| - 1], closing := Some(l.held[|l.held| - 1]))])
    case Close(_) =>
      s.(open := s.open - {l.closing.value}, callers := s.callers[t := l.(closing := None)])
  }

  /** New: the first session, opened with the library, is returned to the empty channel. */
  function Start(h: Handle): State {
    State([h], {h}, map[])
  }

  /** What a caller holds or is about to close. */
  function Owned(l: Local): seq<Handle> {
    l.held + (if l.closing.Some? then [l.closing.value] else [])
  }

  /** The cached sessions and those of each caller partition the open ones, without repetition. */
  ghost predicate Invariant(s: State) {
    && |s.cached| <= SessionCacheSize
    && (forall t :: LocalOf(s, t).asking.None? || LocalOf(s, t).closing.None?)
    && Partition(s)
  }

  ghost predicate Partition(s: State) {
    CachedOnce(s) && OwnedOnce(s) && Exclusive(s) && Accounted(s)
  }

  ghost predicate CachedOnce(s: State) {
    Distinct(s.cached) && forall h :: h in s.cached ==> h in s.open
  }

  ghost predicate OwnedOnce(s: State) {
    && (forall t :: Distinct(Owned(LocalOf(s, t))))
    && (forall t, h :: h in Owned(LocalOf(s, t)) ==> h in s.open && h !in s.cached)
  }

  ghost predicate Exclusive(s: State) {
    forall t, u, h :: h in Owned(LocalOf(s, t)) && h in Owned(LocalOf(s, u)) ==> t == u
  }

  ghost predicate Accounted(s: State) {
    forall h :: h in s.open ==> h in s.cached || exists t :: h in Owned(LocalOf(s, t))
  }

  function Next(s: State, a: Action): Option<State> {
    if Enabled(s, a) then Some(Step(s, a)) else None
  }

  /** A run of a machine: a sequence of actions, each possible when it happens. */
  ghost predicate RunOf<S, A>(next: (S, A) -> Option<S>, s: S, actions: seq<A>, last: S)
    decreases |actions|
  {
    if actions == [] then last == s
    else next(s, actions[0]).Some? && RunOf(next, next(s, actions[0]).value, actions[1..], last)
  }

  ghost predicate IsRun(s: State, actions: seq<Action>, last: State) {
    RunOf(Next, s, actions, last)
  }

  /** Between the states, only caller t's sessions change. */
  ghost predicate OthersUnchanged(s: State, s': State, t: Caller) {
    forall u :: u != t ==> Owned(LocalOf(s', u)) == Owned(LocalOf(s, u))
  }

  lemma {:induction false} PartitionUnchanged(s: State, s': State, t: Caller)
    requires Partition(s) && OthersUnchanged(s, s', t)
    requires Owned(LocalOf(s', t)) == Owned(LocalOf(s, t)) && s'.cached == s.cached && s'.open == s.open
    ensures Partition(s')
  {
    forall u ensures Owned(LocalOf(s', u)) == Owned(LocalOf(s, u)) {
    }
    forall h | h in s'.open ensures h in s'.cached || exists u :: h in Owned(LocalOf(s', u)) {
      if h !in s.cached {
        var u :| h in Owned(LocalOf(s, u));
        assert h in Owned(LocalOf(s', u));
      }
    }
  }

  /** The step gives caller t session h, from the cache or from the token. */
  ghost predicate Gains(s: State, s': State, t: Caller, h: Handle) {
    && OthersUnchanged(s, s', t)
    && Owned(LocalOf(s', t)) == Owned(LocalOf(s, t)) + [h]
    && (|| (s.cached != [] && h == s.cached[0] && s'.cached == s.cached[1..] && s'.open == s.open)
        || (h !in s.open && s'.cached == s.cached && s'.open == s.open + {h}))
  }

  lemma {:induction false} GainedBy(s: State, s': State, t: Caller, h: Handle, u: Caller, x: Handle)
    requires OthersUnchanged(s, s', t) && Owned(LocalOf(s', t)) == Owned(LocalOf(s, t)) + [h]
    ensures x in Owned(LocalOf(s', u)) <==> x in Owned(LocalOf(s, u)) || (u == t && x == h)
  {
  }

  /** Before, h was nobody's; after, it is out of the cache and open. */
  lemma {:induction false} GainedIsNew(s: State, s': State, t: Caller, h: Handle)
    requires CachedOnce(s) && OwnedOnce(s) && Gains(s, s', t, h)
    ensures forall u :: h !in Owned(LocalOf(s, u))
    ensures h !in s'.cached && h in s'.open && CachedOnce(s')
    ensures forall x :: x in s'.cached ==> x in s.cached
  {
    assert h in s.cached || h !in s.open;
  }

  lemma {:induction false} GainAccounted(s: State, s': State, t: Caller, h: Handle)
    requires Accounted(s) && Gains(s, s', t, h)
    ensures Accounted(s')
  {
    forall x | x in s'.open ensures x in s'.cached || exists u :: x in Owned(LocalOf(s', u)) {
      if x == h {
        GainedBy(s, s', t, h, t, x);
      } else if x !in s.cached {
        var u :| x in Owned(LocalOf(s, u));
        GainedBy(s, s', t, h, u, x);
      }
    }
  }

  /** The caller gains a session that was cached, or that has just been opened. */
  lemma {:induction false} PartitionGain(s: State, s': State, t: Caller, h: Handle)
    requires Partition(s) && Gains(s, s', t, h)
    ensures Partition(s')
  {
    GainedIsNew(s, s', t, h);
    forall u, x ensures x in Owned(LocalOf(s', u)) <==> x in Owned(LocalOf(s, u)) || (u == t && x == h) {
      GainedBy(s, s', t, h, u, x);
    }
    GainAccounted(s, s', t, h);
  }

  /** The caller loses its last session, to the cache or for good. */
  lemma {:induction false} PartitionLose(s: State, s': State, t: Caller, h: Handle)
    requires Partition(s) && OthersUnchanged(s, s', t)
    requires Owned(LocalOf(s, t)) == Owned(LocalOf(s', t)) + [h]
    requires || (s'.cached == s.cached + [h] && s'.open == s.open)
             || (s'.cached == s.cached && s'.open == s.open - {h})
    ensures Partition(s')
  {
    var before, after := Owned(LocalOf(s, t)), Owned(LocalOf(s', t));
    assert before[|after|] == h && h in before;
    assert forall k :: 0 <= k < |after| ==> after[k] == before[k];
    assert h !in after && h !in s.cached && h in s.open;
    forall u, x ensures x in Owned(LocalOf(s', u)) <==> x in Owned(LocalOf(s, u)) && x != h {
      if u != t && x == h {
        assert h !in Owned(LocalOf(s, u));
      }
    }
    assert CachedOnce(s') && Exclusive(s');
    assert OwnedOnce(s') by {
      forall u ensures Distinct(Owned(LocalOf(s', u))) {
        if u == t {
          assert Distinct(before);
        }
      }
    }
    forall x | x in s'.open ensures x in s'.cached || exists u :: x in Owned(LocalOf(s', u)) {
      if x != h && x !in s.cached {
        var u :| x in Owned(LocalOf(s, u));
        assert x in Owned(LocalOf(s', u));
      } else if x == h {
        assert s'.cached == s.cached + [h];
      }
    }
  }

  lemma {:induction false} GainKeepsPartition(s: State, a: Action)
    requires Invariant(s) && Enabled(s, a) && (a.Take? || a.Opened?)
    ensures Partition(Step(s, a))
  {
    var s', t := Step(s, a), a.caller;
    var h := if a.Take? then s.cached[0] else a.handle;
    assert OthersUnchanged(s, s', t);
    assert Owned(LocalOf(s', t)) == Owned(LocalOf(s, t)) + [h];
    PartitionGain(s, s', t, h);
  }

  lemma {:induction false} LossKeepsPartition(s: State, a: Action)
    requires Invariant(s) && Enabled(s, a) && (a.Cache? || a.Close?)
    ensures Partition(Step(s, a))
  {
    var s', t, l := Step(s, a), a.caller, LocalOf(s, a.caller);
    var h := if a.Cache? then l.held[|l.held| - 1] else l.closing.value;
    assert OthersUnchanged(s, s', t);
    assert Owned(l) == Owned(LocalOf(s', t)) + [h];
    PartitionLose(s, s', t, h);
  }

  lemma {:induction false} RestKeepsPartition(s: State, a: Action)
    requires Invariant(s) && Enabled(s, a) && (a.FindFull? || a.FindEmpty? || a.Refused? || a.GiveUp?)
    ensures Partition(Step(s, a))
  {
    var s', t := Step(s, a), a.caller;
    assert OthersUnchanged(s, s', t);
    assert Owned(LocalOf(s', t)) == Owned(LocalOf(s, t));
    PartitionUnchanged(s, s', t);
  }

  /** Every step of every caller keeps the invariant. */
  lemma {:induction false} StepKeepsInvariant(s: State, a: Action)
    requires Invariant(s) && Enabled(s, a)
    ensures Invariant(Step(s, a))
  {
    forall t | t != a.caller ensures LocalOf(Step(s, a), t) == LocalOf(s, t) {
    }
    match a
    case Take(_) => GainKeepsPartition(s, a);
    case Opened(_, _) => GainKeepsPartition(s, a);
    case Cache(_) => LossKeepsPartition(s, a);
    case Close(_) => LossKeepsPartition(s, a);
    case FindFull(_) => RestKeepsPartition(s, a);
    case FindEmpty(_) => RestKeepsPartition(s, a);
    case Refused(_) => RestKeepsPartition(s, a);
    case GiveUp(_) => RestKeepsPartition(s, a);
  }

  lemma {:induction false} RunKeepsInvariant(s: State, actions: seq<Action>, last: State)
    requires Invariant(s) && IsRun(s, actions, last)
    ensures Invariant(last)
    decreases |actions|
  {
    if actions != [] {
      StepKeepsInvariant(s, actions[0]);
      RunKeepsInvariant(Step(s, actions[0]), actions[1..], last);
    }
  }

  /** Nobody holds a session, waits for one, or is about to close one. */
  ghost predicate Quiescent(s: State) {
    forall t :: LocalOf(s, t) == Idle
  }

  /** After any interleaving: no session has two holders, none is both held and cached, none of them is
      closed, none is lost, and once everything is returned at most the cache size remain open. */
  lemma {:induction false} PoolIsSafe(h: Handle, actions: seq<Action>, s: State)
    requires IsRun(Start(h), actions, s)
    ensures Invariant(s)
    ensures Quiescent(s) ==> s.open == Elements(s.cached) && |s.open| <= 10
  {
    RunKeepsInvariant(Start(h), actions, s);
    if Quiescent(s) {
      forall x | x in s.open ensures x in s.cached {
        assert forall t :: Owned(LocalOf(s, t)) == [];
      }
      DistinctSize(s.cached);
    }
  }

  // ---------------------------------------------------------------------------------------------
  // The code of one caller.

  lemma {:induction false} RunOfConcat<S, A>(next: (S, A) -> Option<S>, s: S, a: seq<A>, m: S, b: seq<A>, last: S)
    requires RunOf(next, s, a, m) && RunOf(next, m, b, last)
    ensures RunOf(next, s, a + b, last)
    decreases |a|
  {
    if a == [] {
      assert a + b == b;
    } else {
      assert (a + b)[1..] == a[1..] + b;
      RunOfConcat(next, next(s, a[0]).value, a[1..], m, b, last);
    }
  }

  lemma {:induction false} RunConcat(s: State, a: seq<Action>, m: State, b: seq<Action>, last: State)
    requires IsRun(s, a, m) && IsRun(m, b, last)
    ensures IsRun(s, a + b, last)
  {
    RunOfConcat(Next, s, a, m, b, last);
  }

  ghost predicate AllBy(actions: seq<Action>, t: Caller) {
    forall a :: a in actions ==> a.caller == t
  }

  lemma {:induction false} RunSnoc(s: State, a: seq<Action>, m: State, x: Action)
    requires IsRun(s, a, m) && Enabled(m, x)
    ensures IsRun(s, a + [x], Step(m, x))
  {
    assert [x][1..] == [];
    RunConcat(s, a, m, [x], Step(m, x));
  }

  /** How many sessions the actions obtain. */
  function Acquired(actions: seq<Action>): nat {
    if actions == [] then 0 else (if actions[0].Take? || actions[0].Opened? then 1 else 0) + Acquired(actions[1..])
  }

  /** How many they give back, to the cache or for good. */
  function Returned(actions: seq<Action>): nat {
    if actions == [] then 0 else (if actions[0].Cache? || actions[0].Close? then 1 else 0) + Returned(actions[1..])
  }

  lemma {:induction false} CountsConcat(a: seq<Action>, b: seq<Action>)
    ensures Acquired(a + b) == Acquired(a) + Acquired(b) && Returned(a + b) == Returned(a) + Returned(b)
    decreases |a|
  {
    if a == [] {
      assert a + b == b;
    } else {
      assert (a + b)[1..] == a[1..] + b;
      CountsConcat(a[1..], b);
    }
  }

  lemma {:induction false} CountsOne(a: Action)
    ensures Acquired([a]) == (if a.Take? || a.Opened? then 1 else 0)
    ensures Returned([a]) == (if a.Cache? || a.Close? then 1 else 0)
  {
    assert [a][1..] == [];
  }

  /** On the way, the caller holds that many sessions. */
  ghost predicate PassesThrough(s: State, actions: seq<Action>, t: Caller, holding: nat) {
    exists k, mid :: 0 <= k <= |actions| && IsRun(s, actions[..k], mid) && |LocalOf(mid, t).held| == holding
  }

  lemma {:induction false} PassesNow(s: State, actions: seq<Action>, last: State, t: Caller)
    requires IsRun(s, actions, last)
    ensures PassesThrough(s, actions, t, |LocalOf(last, t).held|)
  {
    assert actions[..|actions|] == actions;
  }

  lemma {:induction false} PassesBefore(s: State, a: seq<Action>, b: seq<Action>, t: Caller, holding: nat)
    requires PassesThrough(s, a, t, holding)
    ensures PassesThrough(s, a + b, t, holding)
  {
    var k, mid :| 0 <= k <= |a| && IsRun(s, a[..k], mid) && |LocalOf(mid, t).held| == holding;
    assert (a + b)[..k] == a[..k];
  }

  lemma {:induction false} PassesLater(s: State, a: seq<Action>, m: State, b: seq<Action>, t: Caller, holding: nat)
    requires IsRun(s, a, m) && PassesThrough(m, b, t, holding)
    ensures PassesThrough(s, a + b, t, holding)
  {
    var k, mid :| 0 <= k <= |b| && IsRun(m, b[..k], mid) && |LocalOf(mid, t).held| == holding;
    RunConcat(s, a, m, b[..k], mid);
    assert (a + b)[..|a| + k] == a + b[..k];
  }

  /** One run after the other: what counts, who acts, and where it passes through. */
  lemma {:induction false} RunJoin(s: State, a: seq<Action>, m: State, b: seq<Action>, last: State, t: Caller)
    requires IsRun(s, a, m) && IsRun(m, b, last) && AllBy(a, t) && AllBy(b, t)
    ensures IsRun(s, a + b, last) && AllBy(a + b, t)
    ensures Acquired(a + b) == Acquired(a) + Acquired(b) && Returned(a + b) == Returned(a) + Returned(b)
    ensures GiveUp(t) in a + b <==> GiveUp(t) in a || GiveUp(t) in b
    ensures forall n: nat :: PassesThrough(s, a, t, n) || PassesThrough(m, b, t, n) ==> PassesThrough(s, a + b, t, n)
  {
    RunConcat(s, a, m, b, last);
    CountsConcat(a, b);
    forall n: nat | PassesThrough(s, a, t, n) || PassesThrough(m, b, t, n) ensures PassesThrough(s, a + b, t, n) {
      if PassesThrough(s, a, t, n) {
        PassesBefore(s, a, b, t, n);
      } else {
        PassesLater(s, a, m, b, t, n);
      }
    }
  }

  function Refusals(t: Caller, n: nat): (r: seq<Action>)
    ensures |r| == n && forall i :: 0 <= i < n ==> r[i] == Refused(t)
  {
    seq(n, _ => Refused(t))
  }

  lemma {:induction false} RefusalsCount(t: Caller, n: nat)
    ensures Acquired(Refusals(t, n)) == 0 && Returned(Refusals(t, n)) == 0
    ensures Refusals(t, n) + [Refused(t)] == Refusals(t, n + 1)
  {
    if n > 0 {
      RefusalsCount(t, n - 1);
      assert Refusals(t, n)[1..] == Refusals(t, n - 1);
    }
  }

  /** What asking the token amounts to: nine refusals at the most before a session, or ten and no session. */
  ghost predicate Asked(t: Caller, steps: seq<Action>, r: Option<Handle>) {
    match r
    case None => steps == [FindEmpty(t)] + Refusals(t, 10) + [GiveUp(t)]
    case Some(h) => exists n: nat :: n <= 9 && steps == [FindEmpty(t)] + Refusals(t, n) + [Opened(t, h)]
  }

  lemma {:induction false} AskedCounts(t: Caller, n: nat, last: Action)
    requires last == GiveUp(t) || (last.Opened? && last.caller == t)
    ensures var steps := [FindEmpty(t)] + Refusals(t, n) + [last];
            && Acquired(steps) == (if last.Opened? then 1 else 0) && Returned(steps) == 0
            && (GiveUp(t) in steps <==> last == GiveUp(t)) && AllBy(steps, t)
  {
    RefusalsCount(t, n);
    CountsOne(FindEmpty(t));
    CountsOne(last);
    CountsConcat([FindEmpty(t)], Refusals(t, n));
    CountsConcat([FindEmpty(t)] + Refusals(t, n), [last]);
  }

  lemma {:induction false} AskedMeans(t: Caller, steps: seq<Action>, r: Option<Handle>)
    requires Asked(t, steps, r)
    ensures AllBy(steps, t) && (GiveUp(t) in steps <==> r.None?)
    ensures Acquired(steps) == (if r.Some? then 1 else 0) && Returned(steps) == 0
  {
    match r
    case None => AskedCounts(t, 10, GiveUp(t));
    case Some(h) =>
      var n: nat :| n <= 9 && steps == [FindEmpty(t)] + Refusals(t, n) + [Opened(t, h)];
      AskedCounts(t, n, Opened(t, h));
  }

  /** The steps of a return, into the cache or past it. */
  function Returning(t: Caller, full: bool): seq<Action> {
    if full then [FindFull(t)] + [Close(t)] else [Cache(t)]
  }

  lemma {:induction false} ReturningCounts(t: Caller, full: bool)
    ensures var steps := Returning(t, full);
            Acquired(steps) == 0 && Returned(steps) == 1 && GiveUp(t) !in steps && AllBy(steps, t)
  {
    CountsOne(Cache(t));
    CountsOne(FindFull(t));
    CountsOne(Close(t));
    CountsConcat([FindFull(t)], [Close(t)]);
  }

  lemma {:induction false} FreshHandle(s: set<Handle>) returns (h: Handle)
    ensures h !in s && forall x :: x in s ==> x < h
  {
    h := 0;
    var left := s;
    while left != {}
      invariant left <= s && forall x :: x in s && x !in left ==> x < h
      decreases left
    {
      var x :| x in left;
      h := if x < h then h else x + 1;
      left := left - {x};
    }
  }

  class Provider {
    const me: Caller
    var sessions: seq<Handle>       // the channel
    var open: set<Handle>           // the sessions that the token has open
    ghost var world: State          // the same, and what every caller holds

    ghost predicate Valid()
      reads this
    {
      && world.cached == sessions
      && world.open == open
      && Invariant(world)
      && Running(LocalOf(world, me))
    }

    /** The sessions that this caller holds, innermost last. */
    ghost function Held(): seq<Handle>
      reads this
    {
      LocalOf(world, me).held
    }

    /** New: keeps the one session that opening the library made. */
    constructor (me: Caller, session: Handle)
      ensures Valid() && this.me == me && world == Start(session) && Held() == []
    {
      this.me := me;
      sessions, open, world := [session], {session}, Start(session);
    }

    /** The token opens a session under a handle that is not in use, or refuses. */
    method OpenSession() returns (r: Option<Handle>)
      modifies this`open
      ensures r.None? ==> open == old(open)
      ensures r.Some? ==> r.value !in old(open) && open == old(open) + {r.value}
    {
      if * {
        return None;
      }
      ghost var unused := FreshHandle(open);
      var h: Handle :| h !in open;
      open := open + {h};
      return Some(h);
    }

    /** Moves the ghost state along by one step of the machine. */
    ghost method Advance(a: Action)
      requires Enabled(world, a) && Invariant(world)
      modifies this`world
      ensures world == Step(old(world), a) && Invariant(world)
      ensures IsRun(old(world), [a], world)
    {
      StepKeepsInvariant(world, a);
      RunSnoc(world, [], world, a);
      assert [] + [a] == [a];
      world := Step(world, a);
    }

    /** Takes a cached session, or opens one in up to ten attempts; None where it panics. */
    method GetSession() returns (r: Option<Handle>, ghost steps: seq<Action>)
      requires Valid()
      modifies this
      ensures Valid() && IsRun(old(world), steps, world) && AllBy(steps, me)
      ensures r.None? ==> Held() == old(Held()) && open == old(open) && sessions == old(sessions) == []
      ensures r.Some? ==> Held() == old(Held()) + [r.value]
      ensures r.Some? && old(sessions) != [] ==>
                r.value == old(sessions)[0] && sessions == old(sessions)[1..] && open == old(open)
      ensures r.Some? && old(sessions) == [] ==> r.value !in old(open) && sessions == []
      ensures if old(sessions) == [] then Asked(me, steps, r) else steps == [Take(me)]
      ensures Acquired(steps) == (if r.Some? then 1 else 0) && Returned(steps) == 0
      ensures GiveUp(me) in steps <==> r.None?
    {
      if sessions != [] {
        var session := sessions[0];
        sessions := sessions[1..];
        CountsOne(Take(me));
        Advance(Take(me));
        return Some(session), [Take(me)];
      }
      r, steps := AskToken();
      AskedMeans(me, steps, r);
    }

    /** Asking the token for the i-th time. */
    ghost predicate Asking(i: nat, held: seq<Handle>)
      reads this
    {
      && world.cached == sessions == [] && world.open == open && Invariant(world)
      && LocalOf(world, me) == Local(held, Some(i), None)
    }

    method AskOnce(i: nat, ghost held: seq<Handle>) returns (r: Option<Handle>, ghost a: Action)
      requires Asking(i, held) && i < 10
      modifies this
      ensures IsRun(old(world), [a], world)
      ensures r.None? ==> a == Refused(me) && Asking(i + 1, held) && open == old(open)
      ensures r.Some? ==> a == Opened(me, r.value) && Valid() && sessions == [] && Held() == held + [r.value] && r.value !in old(open)
    {
      r := OpenSession();
      a := if r.Some? then Opened(me, r.value) else Refused(me);
      Advance(a);
    }

    /** The default branch of getSession. */
    method AskToken() returns (r: Option<Handle>, ghost steps: seq<Action>)
      requires Valid() && sessions == []
      modifies this
      ensures Valid() && IsRun(old(world), steps, world) && sessions == []
      ensures r.None? ==> Held() == old(Held()) && open == old(open)
      ensures r.Some? ==> Held() == old(Held()) + [r.value] && r.value !in old(open)
      ensures Asked(me, steps, r)
    {
      ghost var start, held := world, Held();
      Advance(FindEmpty(me));
      steps := [FindEmpty(me)];
      assert steps == [FindEmpty(me)] + Refusals(me, 0);
      var i := 0;
      while i < 10
        invariant 0 <= i <= 10 && Asking(i, held) && open == old(open)
        invariant IsRun(start, steps, world) && steps == [FindEmpty(me)] + Refusals(me, i)
      {
        ghost var before := world;
        var s;
        ghost var a;
        s, a := AskOnce(i, held);
        RunConcat(start, steps, before, [a], world);
        steps := steps + [a];
        if s.Some? {
          return s, steps;
        }
        RefusalsCount(me, i);
        i := i + 1;
      }
      RunSnoc(start, steps, world, GiveUp(me));
      Advance(GiveUp(me));
      steps := steps + [GiveUp(me)];
      return None, steps;
    }

    /** Caches the innermost session if there is room, and closes it otherwise. */
    method ReturnSession(session: Handle) returns (ghost steps: seq<Action>)
      requires Valid() && Held() != [] && session == Held()[|Held()| - 1]
      modifies this
      ensures Valid() && IsRun(old(world), steps, world)
      ensures steps == Returning(me, |old(sessions)| == SessionCacheSize)
      ensures Held() == old(Held())[..|old(Held())| - 1]
      ensures |old(sessions)| < SessionCacheSize ==> sessions == old(sessions) + [session] && open == old(open)
      ensures |old(sessions)| == SessionCacheSize ==> sessions == old(sessions) && open == old(open) - {session}
    {
      if |sessions| < SessionCacheSize {
        sessions := sessions + [session];
        Advance(Cache(me));
        return [Cache(me)];
      }
      Advance(FindFull(me));
      RunSnoc(old(world), [FindFull(me)], world, Close(me));
      open := open - {session};
      Advance(Close(me));
      return [FindFull(me)] + [Close(me)];
    }

    /** getSession, with what it means for the sessions of this caller. */
    method Obtain() returns (r: Option<Handle>, ghost steps: seq<Action>)
      requires Valid()
      modifies this
      ensures Valid() && IsRun(old(world), steps, world) && AllBy(steps, me)
      ensures Held() == old(Held()) + (if r.Some? then [r.value] else [])
      ensures Acquired(steps) == (if r.Some? then 1 else 0) && Returned(steps) == 0
      ensures GiveUp(me) in steps <==> r.None?
      ensures PassesThrough(old(world), steps, me, |Held()|)
    {
      ghost var start := world;
      r, steps := GetSession();
      PassesNow(start, steps, world, me);
    }

    /**
     importECKey: importing a private key imports the public key first, on a second session. It fails
     exactly if the token gives up; all that it obtains is given back in either case.
     */
    method ImportECKey(isPrivate: bool) returns (ok: bool, ghost steps: seq<Action>)
      requires Valid()
      modifies this
      ensures Valid() && IsRun(old(world), steps, world) && AllBy(steps, me)
      ensures Held() == old(Held())
      ensures ok <==> GiveUp(me) !in steps
      ensures Returned(steps) == Acquired(steps)
      ensures ok ==> Acquired(steps) == (if isPrivate then 2 else 1)
      ensures ok ==> PassesThrough(old(world), steps, me, |old(Held())| + (if isPrivate then 2 else 1))
      decreases if isPrivate then 2 else 0
    {
      ghost var start := world;
      var session;
      session, steps := Obtain();
      if session.None? {
        return false, steps;
      }
      ok := true;
      if isPrivate {
        ok, steps := ImportPublic(start, steps);
      }
      steps := GiveBack(start, steps, session.value);
    }

    /** The nested import of the public key, behind the steps so far. */
    method ImportPublic(ghost start: State, ghost steps: seq<Action>) returns (ok: bool, ghost all: seq<Action>)
      requires Valid() && IsRun(start, steps, world) && AllBy(steps, me) && GiveUp(me) !in steps
      modifies this
      ensures Valid() && IsRun(start, all, world) && AllBy(all, me)
      ensures Held() == old(Held())
      ensures ok <==> GiveUp(me) !in all
      ensures Acquired(all) - Returned(all) == Acquired(steps) - Returned(steps)
      ensures ok ==> Acquired(all) == Acquired(steps) + 1
      ensures ok ==> PassesThrough(start, all, me, |old(Held())| + 1)
      decreases 1
    {
      ghost var before := world;
      ghost var inner;
      ok, inner := ImportECKey(false);
      RunJoin(start, steps, before, inner, world, me);
      all := steps + inner;
    }

    /** The deferred return of the innermost session, behind the steps so far. */
    method GiveBack(ghost start: State, ghost steps: seq<Action>, session: Handle) returns (ghost all: seq<Action>)
      requires Valid() && Held() != [] && session == Held()[|Held()| - 1]
      requires IsRun(start, steps, world) && AllBy(steps, me)
      modifies this
      ensures Valid() && IsRun(start, all, world) && AllBy(all, me)
      ensures Held() == old(Held())[..|old(Held())| - 1]
      ensures Acquired(all) == Acquired(steps) && Returned(all) == Returned(steps) + 1
      ensures GiveUp(me) in all <==> GiveUp(me) in steps
      ensures forall holding: nat :: PassesThrough(start, steps, me, holding) ==> PassesThrough(start, all, me, holding)
    {
      ghost var before := world;
      ghost var full := |sessions| == SessionCacheSize;
      ghost var last := ReturnSession(session);
      ReturningCounts(me, full);
      RunJoin(start, steps, before, last, world, me);
      all := steps + last;
    }
  }
}
