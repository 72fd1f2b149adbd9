/**
 * Counting occurrences: `collections.Counter` (app/endpoints/processing.py)
 * and `calculate_keyword_frequencies` (app/endpoints/validating.py), which
 * both map each distinct item of a list to the number of times it occurs.
 * A Python dict's insertion order is not part of this model: a table is a
 * `map`.
 */
module Frequencies {

  /** Number of occurrences of `x` in `xs`. */
  function Count<T(==)>(xs: seq<T>, x: T): nat {
    if xs == [] then 0 else (if xs[|xs| - 1] == x then 1 else 0) + Count(xs[..|xs| - 1], x)
  }

  /** The frequency table of `xs`: every distinct item, with its number of occurrences. */
  function Tally<T(==)>(xs: seq<T>): (m: map<T, int>)
    ensures m.Keys == set x | x in xs
  {
    map x | x in xs :: Count(xs, x)
  }

  /** `sum(table.values())`. */
  ghost function Total<K>(m: map<K, int>): int
    decreases |m.Keys|
  {
    if m == map[] then 0
    else
      var k :| k in m;
      m[k] + Total(m - {k})
  }

  /** The count of an item is its multiplicity: how many times the multiset of the list holds it. */
  lemma {:induction false} CountIsMultiplicity<T>(xs: seq<T>, x: T)
    ensures Count(xs, x) == multiset(xs)[x]
    decreases |xs|
  {
    if xs != [] {
      var init := xs[..|xs| - 1];
      assert xs == init + [xs[|xs| - 1]];
      CountIsMultiplicity(init, x);
    }
  }

  /** An item occurs in the list just when its count is positive. */
  lemma CountPositive<T>(xs: seq<T>, x: T)
    ensures x in xs <==> Count(xs, x) > 0
  {
    CountIsMultiplicity(xs, x);
  }

  /** Appending an item raises its own count by one and leaves every other count alone. */
  lemma CountAppend<T>(xs: seq<T>, x: T, y: T)
    ensures Count(xs + [x], y) == Count(xs, y) + (if x == y then 1 else 0)
  {
    assert (xs + [x])[..|xs|] == xs;
  }

  /** Counting one more item: its entry goes up by one, or appears with 1. */
  lemma TallyAppend<T>(xs: seq<T>, x: T)
    ensures Tally(xs + [x]) == Tally(xs)[x := if x in Tally(xs) then Tally(xs)[x] + 1 else 1]
  {
    var m, m' := Tally(xs), Tally(xs + [x]);
    var u := m[x := if x in m then m[x] + 1 else 1];
    forall y | y in m' ensures y in u && m'[y] == u[y] {
      CountAppend(xs, x, y);
      CountPositive(xs, y);
    }
    assert m'.Keys == u.Keys;
  }

  /** The table of a permutation of the list is the same table: counting ignores order. */
  lemma TallyPermutation<T>(xs: seq<T>, ys: seq<T>)
    requires multiset(xs) == multiset(ys)
    ensures Tally(xs) == Tally(ys)
  {
    forall x ensures x in xs <==> x in ys {
      assert x in xs <==> x in multiset(xs);
      assert x in ys <==> x in multiset(ys);
    }
    forall x | x in xs ensures Count(xs, x) == Count(ys, x) {
      CountIsMultiplicity(xs, x);
      CountIsMultiplicity(ys, x);
    }
  }

  /** Removing one key takes its value off the total, whichever key it is. */
  lemma {:induction false} TotalRemove<K>(m: map<K, int>, k: K)
    requires k in m
    ensures Total(m) == m[k] + Total(m - {k})
    decreases |m.Keys|
  {
    var j :| j in m && Total(m) == m[j] + Total(m - {j});
    if j != k {
      TotalRemove(m - {j}, k);
      TotalRemove(m - {k}, j);
      assert m - {j} - {k} == m - {k} - {j};
    }
  }

  /** Setting one key's value changes the total by the difference. */
  lemma TotalUpdate<K>(m: map<K, int>, k: K, v: int)
    ensures Total(m[k := v]) == Total(m) - (if k in m then m[k] else 0) + v
  {
    TotalRemove(m[k := v], k);
    assert m[k := v] - {k} == m - {k};
    if k in m {
      TotalRemove(m, k);
    } else {
      assert m - {k} == m;
    }
  }

  /** The counts of a table add up to the length of the list. */
  lemma {:induction false} TallyTotal<T>(xs: seq<T>)
    ensures Total(Tally(xs)) == |xs|
    decreases |xs|
  {
    if xs == [] {
      assert Tally(xs) == map[];
    } else {
      var init, x := xs[..|xs| - 1], xs[|xs| - 1];
      assert xs == init + [x];
      TallyTotal(init);
      TallyAppend(init, x);
      TotalUpdate(Tally(init), x, if x in Tally(init) then Tally(init)[x] + 1 else 1);
    }
  }

  /**
   * `calculate_keyword_frequencies`: one pass over the keywords, each one
   * raising its entry by one (`frequency.get(keyword, 0) + 1`).
   */
  method KeywordFrequencies(keywords: seq<string>) returns (frequency: map<string, int>)
    ensures frequency == Tally(keywords)
  {
    frequency := map[];
    for i := 0 to |keywords|
      invariant frequency == Tally(keywords[..i])
    {
      var keyword := keywords[i];
      TallyAppend(keywords[..i], keyword);
      assert keywords[..i + 1] == keywords[..i] + [keyword];
      frequency := frequency[keyword := (if keyword in frequency then frequency[keyword] else 0) + 1];
    }
    assert keywords[..|keywords|] == keywords;
  }

  /**
   * What the frequency table holds: the distinct keywords and nothing else,
   * each with its number of occurrences, the counts adding up to the list's
   * length; no keywords give the empty table.
   */
  lemma TallyMeaning<T>(xs: seq<T>)
    ensures forall x :: x in Tally(xs) <==> x in xs
    ensures forall x :: x in Tally(xs) ==> Tally(xs)[x] == multiset(xs)[x] >= 1
    ensures Total(Tally(xs)) == |xs|
    ensures xs == [] <==> Tally(xs) == map[]
  {
    forall x | x in xs ensures Tally(xs)[x] == multiset(xs)[x] >= 1 {
      CountIsMultiplicity(xs, x);
    }
    TallyTotal(xs);
    if xs != [] {
      assert xs[0] in Tally(xs);
    }
  }
}
