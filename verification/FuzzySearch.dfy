/** Fuzzy search over a dictionary of terms, by edit distance. */
module FuzzySearch {
  import opened EditDistance

  datatype FuzzyMatch = FuzzyMatch(term: string, distance: nat)

  // ---- The stable sort by distance ----

  predicate Sorted(ms: seq<FuzzyMatch>) { forall i, j :: 0 <= i < j < |ms| ==> ms[i].distance <= ms[j].distance }

  /** The matches at distance `d`, in order. */
  function AtDistance(ms: seq<FuzzyMatch>, d: nat): seq<FuzzyMatch>
  {
    if ms == [] then []
    else
      var rest := AtDistance(ms[..|ms| - 1], d);
      var last := ms[|ms| - 1];
      if last.distance == d then rest + [last] else rest
  }

  /** `m` goes after every match that is not farther. */
  function InsertByDistance(ms: seq<FuzzyMatch>, m: FuzzyMatch): seq<FuzzyMatch>
  {
    if ms == [] || ms[|ms| - 1].distance <= m.distance then ms + [m]
    else InsertByDistance(ms[..|ms| - 1], m) + [ms[|ms| - 1]]
  }

  function SortByDistance(ms: seq<FuzzyMatch>): seq<FuzzyMatch>
  {
    if ms == [] then [] else InsertByDistance(SortByDistance(ms[..|ms| - 1]), ms[|ms| - 1])
  }

  lemma AtDistanceSnoc(ms: seq<FuzzyMatch>, m: FuzzyMatch, d: nat)
    ensures AtDistance(ms + [m], d) == AtDistance(ms, d) + if m.distance == d then [m] else []
  {
  }

  lemma {:induction false} InsertSorts(ms: seq<FuzzyMatch>, m: FuzzyMatch)
    requires Sorted(ms)
    ensures Sorted(InsertByDistance(ms, m))
    ensures forall x :: x in InsertByDistance(ms, m) <==> x in ms || x == m
    decreases |ms|
  {
    if ms != [] && ms[|ms| - 1].distance > m.distance {
      var front, last := ms[..|ms| - 1], ms[|ms| - 1];
      assert ms == front + [last];
      InsertSorts(front, m);
      var r := InsertByDistance(front, m);
      assert forall x :: x in r ==> x.distance <= last.distance;
      assert forall i :: 0 <= i < |r| ==> r[i] in r;
    }
  }

  lemma {:induction false} InsertStable(ms: seq<FuzzyMatch>, m: FuzzyMatch, d: nat)
    requires Sorted(ms)
    ensures AtDistance(InsertByDistance(ms, m), d) == AtDistance(ms, d) + if m.distance == d then [m] else []
    decreases |ms|
  {
    if ms == [] || ms[|ms| - 1].distance <= m.distance {
      AtDistanceSnoc(ms, m, d);
    } else {
      var front, last := ms[..|ms| - 1], ms[|ms| - 1];
      InsertStable(front, m, d);
      AtDistanceSnoc(InsertByDistance(front, m), last, d);
    }
  }

  /** Sorted by distance, and at each distance the same matches in the same order. */
  lemma {:induction false} SortIsStable(ms: seq<FuzzyMatch>, d: nat)
    ensures Sorted(SortByDistance(ms))
    ensures AtDistance(SortByDistance(ms), d) == AtDistance(ms, d)
    ensures forall x :: x in SortByDistance(ms) <==> x in ms
    decreases |ms|
  {
    if ms != [] {
      var front, last := ms[..|ms| - 1], ms[|ms| - 1];
      assert ms == front + [last];
      SortIsStable(front, d);
      InsertSorts(SortByDistance(front), last);
      InsertStable(SortByDistance(front), last, d);
    }
  }

  // ---- The order of the results ----

  /** Wherever `a` and `b` stand in the dictionary, `a` stands before `b`. */
  ghost predicate Before(dictionary: seq<string>, a: string, b: string)
  {
    forall p, q :: 0 <= p < |dictionary| && 0 <= q < |dictionary| && dictionary[p] == a && dictionary[q] == b ==> p < q
  }

  ghost predicate InOrder(dictionary: seq<string>, ms: seq<FuzzyMatch>)
  {
    forall i, j :: 0 <= i < j < |ms| ==> Before(dictionary, ms[i].term, ms[j].term)
  }

  ghost predicate Precedes(dictionary: seq<string>, x: FuzzyMatch, y: FuzzyMatch)
  {
    x.distance < y.distance || (x.distance == y.distance && Before(dictionary, x.term, y.term))
  }

  /** Nearer matches first, and the dictionary's order among equally near ones. */
  ghost predicate Ranked(dictionary: seq<string>, ms: seq<FuzzyMatch>)
  {
    forall i, j :: 0 <= i < j < |ms| ==> Precedes(dictionary, ms[i], ms[j])
  }

  lemma RankedSnoc(dictionary: seq<string>, ms: seq<FuzzyMatch>, m: FuzzyMatch)
    requires Ranked(dictionary, ms) && forall x :: x in ms ==> Precedes(dictionary, x, m)
    ensures Ranked(dictionary, ms + [m])
  {
    hide Precedes;
    assert forall i :: 0 <= i < |ms| ==> ms[i] in ms;
  }

  lemma RankedFront(dictionary: seq<string>, ms: seq<FuzzyMatch>)
    requires Ranked(dictionary, ms) && ms != []
    ensures var n := |ms| - 1;
      Ranked(dictionary, ms[..n]) && forall x :: x in ms[..n] ==> Precedes(dictionary, x, ms[n])
  {
    hide Precedes;
  }

  lemma {:induction false} InsertRanked(dictionary: seq<string>, ms: seq<FuzzyMatch>, m: FuzzyMatch)
    requires Ranked(dictionary, ms) && forall x :: x in ms ==> Before(dictionary, x.term, m.term)
    ensures Ranked(dictionary, InsertByDistance(ms, m))
    ensures forall x :: x in InsertByDistance(ms, m) <==> x in ms || x == m
    decreases |ms|
  {
    hide Before, Ranked;
    if ms != [] {
      var n := |ms| - 1;
      assert ms == ms[..n] + [ms[n]];
      RankedFront(dictionary, ms);
      if ms[n].distance <= m.distance {
        RankedSnoc(dictionary, ms, m);
      } else {
        InsertRanked(dictionary, ms[..n], m);
        RankedSnoc(dictionary, InsertByDistance(ms[..n], m), ms[n]);
      }
    } else {
      RankedSnoc(dictionary, ms, m);
    }
  }

  lemma {:induction false} SortRanked(dictionary: seq<string>, ms: seq<FuzzyMatch>)
    requires InOrder(dictionary, ms)
    ensures Ranked(dictionary, SortByDistance(ms))
    ensures forall x :: x in SortByDistance(ms) <==> x in ms
    decreases |ms|
  {
    hide Before;
    if ms != [] {
      var n := |ms| - 1;
      assert ms == ms[..n] + [ms[n]];
      SortRanked(dictionary, ms[..n]);
      forall x | x in ms[..n] ensures Before(dictionary, x.term, ms[n].term) {
        var i :| 0 <= i < n && ms[..n][i] == x;
        assert ms[i] == x;
      }
      InsertRanked(dictionary, SortByDistance(ms[..n]), ms[n]);
    }
  }

  // ---- The search ----

  /** The dictionary's terms within `bound` of the query, in dictionary order. */
  function Matches(dictionary: seq<string>, query: string, bound: nat): seq<FuzzyMatch>
  {
    if dictionary == [] then []
    else
      var rest := Matches(dictionary[..|dictionary| - 1], query, bound);
      var term := dictionary[|dictionary| - 1];
      if Lev(query, term) <= bound then rest + [FuzzyMatch(term, Lev(query, term))] else rest
  }

  lemma {:induction false} MatchesExact(dictionary: seq<string>, query: string, bound: nat, m: FuzzyMatch)
    ensures m in Matches(dictionary, query, bound) <==>
      m.term in dictionary && m.distance == Lev(query, m.term) <= bound
    decreases |dictionary|
  {
    hide Lev;
    if dictionary != [] {
      var front, term := dictionary[..|dictionary| - 1], dictionary[|dictionary| - 1];
      assert dictionary == front + [term];
      MatchesExact(front, query, bound, m);
    }
  }

  /** The matches come in dictionary order. */
  lemma {:induction false} MatchesInOrder(dictionary: seq<string>, k: nat, query: string, bound: nat)
    requires Distinct(dictionary) && k <= |dictionary|
    ensures InOrder(dictionary, Matches(dictionary[..k], query, bound))
    decreases k
  {
    hide Lev;
    if k > 0 {
      var front, term := dictionary[..k - 1], dictionary[k - 1];
      assert dictionary[..k][..k - 1] == front;
      MatchesInOrder(dictionary, k - 1, query, bound);
      var rest := Matches(front, query, bound);
      forall i | 0 <= i < |rest| ensures Before(dictionary, rest[i].term, term) {
        assert rest[i] in rest;
        MatchesExact(front, query, bound, rest[i]);
        var p :| 0 <= p < k - 1 && front[p] == rest[i].term;
        assert dictionary[p] == rest[i].term;
      }
    }
  }

  predicate Distinct(ts: seq<string>) { forall i, j :: 0 <= i < j < |ts| ==> ts[i] != ts[j] }

  class FuzzySearcher {
    const maxDistance: nat
    var dictionary: seq<string>
    var searches: nat

    ghost predicate Valid()
      reads this
    {
      Distinct(dictionary)
    }

    constructor (maxDistance: nat)
      ensures Valid() && this.maxDistance == maxDistance && dictionary == [] && searches == 0
    {
      this.maxDistance := maxDistance;
      dictionary, searches := [], 0;
    }

    method AddTerm(term: string)
      requires Valid()
      modifies this`dictionary
      ensures Valid()
      ensures dictionary == if term in old(dictionary) then old(dictionary) else old(dictionary) + [term]
    {
      if term !in dictionary {
        dictionary := dictionary + [term];
      }
    }

    /**
     * Exactly the terms within the bound, each with its distance, nearest first; terms at
     * the same distance keep the dictionary's order.
     */
    method Search(query: string) returns (matches: seq<FuzzyMatch>)
      requires Valid()
      modifies this`searches
      ensures searches == old(searches) + 1
      ensures Sorted(matches)
      ensures forall m :: m in matches <==> m.term in dictionary && m.distance == Lev(query, m.term) <= maxDistance
      ensures forall d :: AtDistance(matches, d) == AtDistance(Matches(dictionary, query, maxDistance), d)
      ensures Ranked(dictionary, matches)
    {
      hide Lev, AtDistance, Ranked, InOrder;
      searches := searches + 1;
      var found := Collect(query);
      matches := SortByDistance(found);
      SortSummary(found);
      MatchesInOrder(dictionary, |dictionary|, query, maxDistance);
      assert dictionary[..|dictionary|] == dictionary;
      SortRanked(dictionary, found);
      forall m ensures m in found <==> m.term in dictionary && m.distance == Lev(query, m.term) <= maxDistance {
        MatchesExact(dictionary, query, maxDistance, m);
      }
    }

    method Collect(query: string) returns (matches: seq<FuzzyMatch>)
      ensures matches == Matches(dictionary, query, maxDistance)
    {
      hide Lev;
      matches := [];
      for i := 0 to |dictionary|
        invariant matches == Matches(dictionary[..i], query, maxDistance)
      {
        assert dictionary[..i + 1][..i] == dictionary[..i];
        var dist := EditDistanceOf(query, dictionary[i]);
        if dist <= maxDistance {
          matches := matches + [FuzzyMatch(dictionary[i], dist)];
        }
      }
      assert dictionary[..|dictionary|] == dictionary;
    }
  }

  lemma SortSummary(ms: seq<FuzzyMatch>)
    ensures Sorted(SortByDistance(ms))
    ensures forall d :: AtDistance(SortByDistance(ms), d) == AtDistance(ms, d)
    ensures forall x :: x in SortByDistance(ms) <==> x in ms
  {
    hide SortByDistance, AtDistance, Sorted;
    SortIsStable(ms, 0);
    forall d ensures AtDistance(SortByDistance(ms), d) == AtDistance(ms, d) {
      SortIsStable(ms, d);
    }
  }
}
