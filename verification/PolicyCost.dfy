/**
 The least number of signatures a gate takes, which Need finds by trying every choice of n rules, is
 what the n cheapest rules take together.
 */
module PolicyCost {
  import opened Prelude
  import opened SignaturePolicies
  import opened PolicySoundness

  predicate Ascending(s: seq<nat>) {
    |s| > 1 ==> s[0] <= s[1] && Ascending(s[1..])
  }

  /** The sum of the first n numbers, if there are that many. */
  function FirstSum(s: seq<nat>, n: int): Option<nat>
    decreases |s|
  {
    if n <= 0 then Some(0)
    else if s == [] then None
    else Plus(Some(s[0]), FirstSum(s[1..], n - 1))
  }

  /** The needs of the rules that can be met at all, in the order of the rules. */
  function Needs(es: seq<Evaluator>): seq<nat> {
    if es == [] then []
    else (if Need(es[0]).Some? then [Need(es[0]).value] else []) + Needs(es[1..])
  }

  function InsertNeed(x: nat, s: seq<nat>): (r: seq<nat>)
    requires Ascending(s)
    ensures r != [] && Ascending(r)
    ensures r[0] == x || (s != [] && r[0] == s[0])
  {
    if s == [] || x <= s[0] then
      assert ([x] + s)[1..] == s;
      [x] + s
    else
      var rest := InsertNeed(x, s[1..]);
      assert ([s[0]] + rest)[1..] == rest;
      [s[0]] + rest
  }

  function SortedNeeds(es: seq<Evaluator>): (r: seq<nat>)
    ensures Ascending(r)
  {
    if es == [] then []
    else if Need(es[0]).None? then SortedNeeds(es[1..])
    else InsertNeed(Need(es[0]).value, SortedNeeds(es[1..]))
  }

  lemma {:induction false} InsertNeedKeeps(x: nat, s: seq<nat>)
    requires Ascending(s)
    ensures multiset(InsertNeed(x, s)) == multiset{x} + multiset(s)
    decreases |s|
  {
    if s == [] || x <= s[0] {
      assert InsertNeed(x, s) == [x] + s;
    } else {
      var rest := InsertNeed(x, s[1..]);
      InsertNeedKeeps(x, s[1..]);
      assert InsertNeed(x, s) == [s[0]] + rest && s == [s[0]] + s[1..];
      assert multiset([s[0]] + rest) == multiset{s[0]} + multiset(rest);
    }
  }

  /** The sorted needs are the needs, each as often. */
  lemma {:induction false} SortedNeedsPermute(es: seq<Evaluator>)
    ensures multiset(SortedNeeds(es)) == multiset(Needs(es))
    decreases |es|
  {
    if es != [] {
      SortedNeedsPermute(es[1..]);
      if Need(es[0]).Some? {
        InsertNeedKeeps(Need(es[0]).value, SortedNeeds(es[1..]));
      } else {
        assert Needs(es) == Needs(es[1..]);
      }
    }
  }

  /** Leaving out the smallest number does not make the sum smaller. */
  lemma {:induction false} SmallestFirst(s: seq<nat>, n: int)
    requires Ascending(s) && s != []
    ensures FirstSum(s[1..], n).Some? ==> FirstSum(s, n).Some? && FirstSum(s, n).value <= FirstSum(s[1..], n).value
    decreases |s|
  {
    if n > 0 && |s| > 1 {
      SmallestFirst(s[1..], n - 1);
    }
  }

  /** The sum of the first n of a sequence given by its head and its rest. */
  lemma {:induction false} FirstSumCons(x: nat, s: seq<nat>, n: int)
    requires n > 0
    ensures FirstSum([x] + s, n) == Plus(Some(x), FirstSum(s, n - 1))
  {
    assert ([x] + s)[1..] == s;
  }

  lemma {:induction false} InsertFirst(x: nat, s: seq<nat>, n: int)
    requires Ascending(s) && n > 0 && (s != [] ==> x <= s[0])
    ensures FirstSum([x] + s, n) == Cheaper(FirstSum(s, n), Plus(Some(x), FirstSum(s, n - 1)))
  {
    FirstSumCons(x, s, n);
    if s != [] {
      SmallestFirst(s, n - 1);
    }
  }

  /** The sums for the rest, with y in front. */
  lemma {:induction false} InsertBehind(y: nat, x: nat, p: Option<nat>, q: Option<nat>)
    ensures Plus(Some(y), Cheaper(p, Plus(Some(x), q))) == Cheaper(Plus(Some(y), p), Plus(Some(x), Plus(Some(y), q)))
  {
  }

  /** With one more number, the cheapest n either leave it out or take it with the cheapest n - 1. */
  lemma {:induction false} FirstSumInsert(x: nat, s: seq<nat>, n: int)
    requires Ascending(s) && n > 0
    ensures FirstSum(InsertNeed(x, s), n) == Cheaper(FirstSum(s, n), Plus(Some(x), FirstSum(s, n - 1)))
    decreases |s|
  {
    if s == [] || x <= s[0] {
      InsertFirst(x, s, n);
    } else {
      var rest := InsertNeed(x, s[1..]);
      FirstSumCons(s[0], rest, n);
      if n > 1 {
        FirstSumInsert(x, s[1..], n - 1);
        InsertBehind(s[0], x, FirstSum(s[1..], n - 1), FirstSum(s[1..], n - 2));
      }
    }
  }

  /** Need at a gate is the sum of the n smallest needs of its rules, and None if fewer can be met. */
  lemma {:induction false} NeedIsCheapestRules(es: seq<Evaluator>, n: int)
    ensures Need(Gate(n, es)) == FirstSum(SortedNeeds(es), n)
    decreases |es|
  {
    if n > 0 && es != [] {
      assert Need(Gate(n, es[1..])) == CheapestOf(es[1..], n);
      assert Need(Gate(n - 1, es[1..])) == CheapestOf(es[1..], n - 1);
      NeedIsCheapestRules(es[1..], n);
      NeedIsCheapestRules(es[1..], n - 1);
      if Need(es[0]).Some? {
        FirstSumInsert(Need(es[0]).value, SortedNeeds(es[1..]), n);
      }
    }
  }
}
