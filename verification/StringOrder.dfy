/** The order of file names and MSP identifiers, and sorting by it. */
module StringOrder {

  /** Lexicographic order, shorter first among prefixes. */
  predicate AtMost(a: string, b: string) {
    if a == [] then true
    else if b == [] then false
    else if a[0] != b[0] then a[0] < b[0]
    else AtMost(a[1..], b[1..])
  }

  lemma {:induction false} AtMostTotal(a: string, b: string)
    ensures AtMost(a, b) || AtMost(b, a)
  {
    if a != [] && b != [] && a[0] == b[0] {
      AtMostTotal(a[1..], b[1..]);
    }
  }

  lemma {:induction false} AtMostTransitive(a: string, b: string, c: string)
    requires AtMost(a, b) && AtMost(b, c)
    ensures AtMost(a, c)
  {
    if a != [] && b != [] && c != [] && a[0] == b[0] && b[0] == c[0] {
      AtMostTransitive(a[1..], b[1..], c[1..]);
    }
  }

  lemma {:induction false} AtMostAntisymmetric(a: string, b: string)
    requires AtMost(a, b) && AtMost(b, a)
    ensures a == b
  {
    if a != [] && b != [] {
      AtMostAntisymmetric(a[1..], b[1..]);
      assert a == [a[0]] + a[1..] && b == [b[0]] + b[1..];
    }
  }

  /** Names with one beginning are ordered by how they go on. */
  lemma {:induction false} AtMostPrefix(p: string, a: string, b: string)
    ensures AtMost(p + a, p + b) == AtMost(a, b)
  {
    if p == [] {
      assert p + a == a && p + b == b;
    } else {
      assert (p + a)[1..] == p[1..] + a && (p + b)[1..] == p[1..] + b;
      AtMostPrefix(p[1..], a, b);
    }
  }

  ghost predicate IsSorted(s: seq<string>) {
    forall i, j :: 0 <= i < j < |s| ==> AtMost(s[i], s[j])
  }

  function InsertSorted(x: string, s: seq<string>): seq<string> {
    if s == [] || AtMost(x, s[0]) then [x] + s else [s[0]] + InsertSorted(x, s[1..])
  }

  function Sorted(s: seq<string>): seq<string> {
    if s == [] then [] else InsertSorted(s[0], Sorted(s[1..]))
  }

  lemma {:induction false} InsertSortedCorrect(x: string, s: seq<string>)
    requires IsSorted(s)
    ensures IsSorted(InsertSorted(x, s))
    ensures multiset(InsertSorted(x, s)) == multiset(s) + multiset{x}
  {
    if s == [] {
    } else if AtMost(x, s[0]) {
      forall j | 0 <= j < |s| ensures AtMost(x, s[j]) {
        if j > 0 { AtMostTransitive(x, s[0], s[j]); }
      }
    } else {
      AtMostTotal(x, s[0]);
      InsertSortedCorrect(x, s[1..]);
      assert s == [s[0]] + s[1..];
      SortedCons(s[0], s[1..], x, InsertSorted(x, s[1..]));
    }
  }

  lemma {:induction false} SortedCons(first: string, tail: seq<string>, x: string, rest: seq<string>)
    requires IsSorted([first] + tail) && AtMost(first, x)
    requires IsSorted(rest) && multiset(rest) == multiset(tail) + multiset{x}
    ensures IsSorted([first] + rest)
  {
    forall j | 0 <= j < |rest| ensures AtMost(first, rest[j]) {
      assert rest[j] in multiset(rest);
      if rest[j] == x {
        assert AtMost(first, x);
      } else {
        assert rest[j] in multiset(tail);
        var k :| 0 <= k < |tail| && tail[k] == rest[j];
        assert AtMost(([first] + tail)[0], ([first] + tail)[k + 1]);
      }
    }
  }

  lemma {:induction false} SortedCorrect(s: seq<string>)
    ensures IsSorted(Sorted(s)) && multiset(Sorted(s)) == multiset(s)
  {
    if s != [] {
      SortedCorrect(s[1..]);
      InsertSortedCorrect(s[0], Sorted(s[1..]));
      assert s == [s[0]] + s[1..];
    }
  }
}
