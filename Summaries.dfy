/**
 * The "ten most popular" summaries of app/data/crud.py: tag names over the
 * vacancy/tag links, cities (the address up to its first comma) and
 * organisations over vacancies. Each groups equal values, counts them,
 * orders the groups by descending count and keeps the first ten.
 */
module Summaries {
  import opened Models
  import opened Tables
  import opened VacancyListing

  /** `.limit(10)` of the summary queries. */
  const SummarySize: nat := 10

  /** How many times `k` occurs in `keys`. */
  function Count<K(==)>(keys: seq<K>, k: K): nat
  {
    if keys == [] then 0 else (if keys[0] == k then 1 else 0) + Count(keys[1..], k)
  }

  lemma {:induction false} CountPositive<K>(keys: seq<K>, k: K)
    requires k in keys
    ensures Count(keys, k) > 0
  {
    if keys[0] != k {
      CountPositive(keys[1..], k);
    }
  }

  /** The distinct values of `keys`: the groups of `GROUP BY`. */
  function Distinct<K(==,!new)>(keys: seq<K>): (r: seq<K>)
    ensures forall x :: x in r <==> x in keys
    ensures forall i, j :: 0 <= i < j < |r| ==> r[i] != r[j]
  {
    if keys == [] then []
    else
      var rest := Distinct(keys[1..]);
      if keys[0] in rest then rest else [keys[0]] + rest
  }

  /** One (value, count) pair per group. */
  function Tally<K(==,!new)>(keys: seq<K>): (r: seq<(K, nat)>)
    ensures forall e :: e in r <==> e.0 in keys && e.1 == Count(keys, e.0)
    ensures forall i, j :: 0 <= i < j < |r| ==> r[i] != r[j]
    ensures |r| == |Distinct(keys)|
  {
    var d := Distinct(keys);
    var r := seq(|d|, i requires 0 <= i < |d| => (d[i], Count(keys, d[i])));
    assert forall e: (K, nat) :: e.0 in keys && e.1 == Count(keys, e.0) ==> e in r by {
      forall e: (K, nat) | e.0 in keys && e.1 == Count(keys, e.0) ensures e in r {
        var i :| 0 <= i < |d| && d[i] == e.0;
        assert r[i] == e;
      }
    }
    r
  }

  predicate NonIncreasing<K>(s: seq<(K, nat)>)
  {
    forall i, j :: 0 <= i < j < |s| ==> s[i].1 >= s[j].1
  }

  /** Puts `e` before the first entry with a smaller count. */
  function InsertByCount<K>(e: (K, nat), s: seq<(K, nat)>): seq<(K, nat)>
  {
    if s == [] || e.1 >= s[0].1 then [e] + s else [s[0]] + InsertByCount(e, s[1..])
  }

  lemma {:induction false} InsertByCountPermutes<K>(e: (K, nat), s: seq<(K, nat)>)
    ensures multiset(InsertByCount(e, s)) == multiset(s) + multiset{e}
  {
    if s != [] && e.1 < s[0].1 {
      InsertByCountPermutes(e, s[1..]);
      assert s == [s[0]] + s[1..];
    }
  }

  lemma {:induction false} InsertByCountOrders<K>(e: (K, nat), s: seq<(K, nat)>)
    requires NonIncreasing(s)
    ensures NonIncreasing(InsertByCount(e, s))
  {
    if s != [] && e.1 < s[0].1 {
      var rest := InsertByCount(e, s[1..]);
      InsertByCountOrders(e, s[1..]);
      InsertByCountPermutes(e, s[1..]);
      forall k | 0 <= k < |rest| ensures rest[k].1 <= s[0].1 {
        assert rest[k] in multiset(rest);
        if rest[k] != e {
          assert rest[k] in multiset(s[1..]);
          var m :| 0 <= m < |s[1..]| && s[1..][m] == rest[k];
          assert s[m + 1] == rest[k];
        }
      }
      forall i, j | 0 <= i < j < |[s[0]] + rest|
        ensures ([s[0]] + rest)[i].1 >= ([s[0]] + rest)[j].1
      {
        assert ([s[0]] + rest)[j] == rest[j - 1];
        if i > 0 {
          assert ([s[0]] + rest)[i] == rest[i - 1];
        }
      }
    }
  }

  /** Insertion sort by descending count (ties: the query leaves their order open). */
  function SortByCount<K>(s: seq<(K, nat)>): seq<(K, nat)>
  {
    if s == [] then [] else InsertByCount(s[0], SortByCount(s[1..]))
  }

  /** The sort returns its input in non-increasing count order. */
  lemma {:induction false} SortByCountCorrect<K>(s: seq<(K, nat)>)
    ensures NonIncreasing(SortByCount(s))
    ensures multiset(SortByCount(s)) == multiset(s)
  {
    if s != [] {
      SortByCountCorrect(s[1..]);
      InsertByCountOrders(s[0], SortByCount(s[1..]));
      InsertByCountPermutes(s[0], SortByCount(s[1..]));
      assert s == [s[0]] + s[1..];
    }
  }

  /** A sequence without repeated entries keeps that property under permutation. */
  lemma SamePermutationNoRepeats<T>(a: seq<T>, b: seq<T>)
    requires multiset(a) == multiset(b)
    requires forall i, j :: 0 <= i < j < |a| ==> a[i] != a[j]
    ensures forall i, j :: 0 <= i < j < |b| ==> b[i] != b[j]
  {
    forall i, j | 0 <= i < j < |b| ensures b[i] != b[j] {
      if b[i] == b[j] {
        var x := b[i];
        assert b == b[..i] + [x] + b[i + 1..j] + [x] + b[j + 1..];
        assert multiset(b)[x] >= 2;
        OnceAtMost(a, x);
        assert false;
      }
    }
  }

  lemma {:induction false} OnceAtMost<T>(a: seq<T>, x: T)
    requires forall i, j :: 0 <= i < j < |a| ==> a[i] != a[j]
    ensures multiset(a)[x] <= 1
  {
    if a != [] {
      assert a == [a[0]] + a[1..];
      OnceAtMost(a[1..], x);
      if a[0] == x {
        assert x !in a[1..];
      }
    }
  }

  /** The first ten entries of the counted groups, most frequent first. */
  function TopCounts<K(==,!new)>(keys: seq<K>): seq<(K, nat)>
  {
    var sorted := SortByCount(Tally(keys));
    sorted[..Min(SummarySize, |sorted|)]
  }

  /** The sorted tally holds each distinct value once, with its count, most frequent first. */
  lemma SortedTallyCorrect<K(!new)>(keys: seq<K>)
    ensures |SortByCount(Tally(keys))| == |Distinct(keys)|
    ensures NonIncreasing(SortByCount(Tally(keys)))
    ensures forall e :: e in SortByCount(Tally(keys)) <==> e.0 in keys && e.1 == Count(keys, e.0)
    ensures forall i, j :: 0 <= i < j < |SortByCount(Tally(keys))| ==>
              SortByCount(Tally(keys))[i] != SortByCount(Tally(keys))[j]
  {
    var t := Tally(keys);
    var sorted := SortByCount(t);
    SortByCountCorrect(t);
    assert |sorted| == |multiset(sorted)| == |multiset(t)| == |t|;
    SamePermutationNoRepeats(t, sorted);
    forall e | e in sorted ensures e in t {
      assert e in multiset(sorted);
    }
    forall e | e in t ensures e in sorted {
      assert e in multiset(t);
    }
  }

  /**
   * `r` is a top-ten summary of `keys`: distinct values of `keys`, each with
   * its true count, in non-increasing count order, and no value left out that
   * occurs more often than one that was kept (a value is left out only when
   * all ten places are taken).
   */
  ghost predicate IsTopSummary<K>(keys: seq<K>, r: seq<(K, nat)>)
  {
    && |r| <= SummarySize
    && NonIncreasing(r)
    && (forall i :: 0 <= i < |r| ==> r[i].0 in keys && r[i].1 == Count(keys, r[i].0))
    && (forall i, j :: 0 <= i < j < |r| ==> r[i].0 != r[j].0)
    && (forall k :: k in keys && (forall i :: 0 <= i < |r| ==> r[i].0 != k) ==>
          |r| == SummarySize && forall i :: 0 <= i < |r| ==> r[i].1 >= Count(keys, k))
  }

  /** Keeping the first ten entries of the sorted tally gives a top-ten summary. */
  lemma {:induction false} TopPrefixCorrect<K>(keys: seq<K>, sorted: seq<(K, nat)>, n: nat)
    requires n == Min(SummarySize, |sorted|)
    requires NonIncreasing(sorted)
    requires forall e :: e in sorted <==> e.0 in keys && e.1 == Count(keys, e.0)
    requires forall i, j :: 0 <= i < j < |sorted| ==> sorted[i] != sorted[j]
    ensures IsTopSummary(keys, sorted[..n])
  {
    var r: seq<(K, nat)> := sorted[..n];
    assert |r| == n;
    assert forall i :: 0 <= i < n ==> r[i] == sorted[i];
    assert NonIncreasing(r);
    forall i | 0 <= i < |r| ensures r[i].0 in keys && r[i].1 == Count(keys, r[i].0) {
      assert sorted[i] in sorted;
    }
    forall i, j | 0 <= i < j < |r| ensures r[i].0 != r[j].0 {
      assert sorted[i] in sorted && sorted[j] in sorted;
    }
    forall k | k in keys && (forall i :: 0 <= i < |r| ==> r[i].0 != k)
      ensures |r| == SummarySize && forall i :: 0 <= i < |r| ==> r[i].1 >= Count(keys, k)
    {
      var e := (k, Count(keys, k));
      assert e in sorted;
      var p :| 0 <= p < |sorted| && sorted[p] == e;
      assert p >= n;
    }
  }

  /** The top-ten query meets the summary contract and is as long as it can be. */
  lemma TopCountsCorrect<K(!new)>(keys: seq<K>)
    ensures IsTopSummary(keys, TopCounts(keys))
    ensures |TopCounts(keys)| == Min(SummarySize, |Distinct(keys)|)
  {
    var sorted := SortByCount(Tally(keys));
    SortedTallyCorrect(keys);
    TopPrefixCorrect(keys, sorted, Min(SummarySize, |sorted|));
  }

  // ---------------------------------------------------------------------
  // The three summaries
  // ---------------------------------------------------------------------

  /** `split_part(address, ',', 1)`: the address up to its first comma, or all of it. */
  function CityOf(address: string): (city: string)
    ensures city <= address
    ensures ',' !in city
    ensures |city| < |address| ==> address[|city|] == ','
  {
    if address == [] || address[0] == ',' then [] else [address[0]] + CityOf(address[1..])
  }

  /** The names of a join's rows: one per vacancy/tag link. */
  function LinkNames(rows: seq<(Vacancy, string)>): seq<string>
  {
    seq(|rows|, i requires 0 <= i < |rows| => rows[i].1)
  }

  /** The city of each vacancy, in table order. */
  function Cities(vacancies: seq<Vacancy>): seq<string>
  {
    seq(|vacancies|, i requires 0 <= i < |vacancies| => CityOf(vacancies[i].address))
  }

  /** The organisation of each vacancy, in table order. */
  function Organisations(vacancies: seq<Vacancy>): seq<string>
  {
    seq(|vacancies|, i requires 0 <= i < |vacancies| => vacancies[i].organisation)
  }

  /** `get_all_tags`: up to ten (tag name, number of vacancy links) pairs. */
  function TagSummary(vacancies: seq<Vacancy>, tags: seq<Tag>): seq<(string, nat)>
  {
    TopCounts(LinkNames(JoinRows(vacancies, tags)))
  }

  /** `get_all_cities`: up to ten city names, the most frequent first. */
  function CitySummary(vacancies: seq<Vacancy>): seq<string>
  {
    Firsts(TopCounts(Cities(vacancies)))
  }

  /** `get_all_organisations`: up to ten organisation names, the most frequent first. */
  function OrganisationSummary(vacancies: seq<Vacancy>): seq<string>
  {
    Firsts(TopCounts(Organisations(vacancies)))
  }

  /** Every summarised tag name is linked to some vacancy, counted by its links. */
  lemma TagSummaryCorrect(vacancies: seq<Vacancy>, tags: seq<Tag>)
    ensures var r := TagSummary(vacancies, tags);
      && |r| <= SummarySize
      && NonIncreasing(r)
      && forall i :: 0 <= i < |r| ==>
           && r[i].1 == Count(LinkNames(JoinRows(vacancies, tags)), r[i].0)
           && exists v :: v in vacancies && r[i].0 in TagNames(v, tags)
    ensures IsTopSummary(LinkNames(JoinRows(vacancies, tags)), TagSummary(vacancies, tags))
  {
    var rows := JoinRows(vacancies, tags);
    var names := LinkNames(rows);
    TopCountsCorrect(names);
    var r := TagSummary(vacancies, tags);
    forall i | 0 <= i < |r| ensures exists v :: v in vacancies && r[i].0 in TagNames(v, tags) {
      var k :| 0 <= k < |names| && names[k] == r[i].0;
      JoinRowsMembership(vacancies, tags, rows[k]);
    }
  }

  /**
   * What a top-ten query that returns only the values promises: at most ten
   * distinct values that occur, the most frequent first, and a value is left
   * out only when all ten places hold values at least as frequent.
   */
  ghost predicate IsTopValues<K>(keys: seq<K>, r: seq<K>)
  {
    && |r| <= SummarySize
    && (forall i :: 0 <= i < |r| ==> r[i] in keys)
    && (forall i, j :: 0 <= i < j < |r| ==> r[i] != r[j])
    && (forall i, j :: 0 <= i < j < |r| ==> Count(keys, r[i]) >= Count(keys, r[j]))
    && (forall k :: k in keys && k !in r ==>
          |r| == SummarySize && forall i :: 0 <= i < |r| ==> Count(keys, r[i]) >= Count(keys, k))
  }

  /** Dropping the counts of a top-ten summary keeps its promises about the values. */
  lemma TopValuesCorrect<K(!new)>(keys: seq<K>)
    ensures IsTopValues(keys, Firsts(TopCounts(keys)))
  {
    var top := TopCounts(keys);
    var r := Firsts(top);
    TopCountsCorrect(keys);
    assert |r| == |top|;
    forall i | 0 <= i < |r| ensures r[i] == top[i].0 && r[i] in keys {
    }
    forall i, j | 0 <= i < j < |r| ensures r[i] != r[j] && Count(keys, r[i]) >= Count(keys, r[j]) {
      assert top[i].1 >= top[j].1;
    }
    forall k | k in keys && k !in r
      ensures |r| == SummarySize && forall i :: 0 <= i < |r| ==> Count(keys, r[i]) >= Count(keys, k)
    {
      forall i | 0 <= i < |top| ensures top[i].0 != k {
        assert r[i] == top[i].0;
      }
    }
  }

  /** The city summary is a top-ten of the cities; each is the comma-free first field of an address. */
  lemma CitySummaryCorrect(vacancies: seq<Vacancy>)
    ensures IsTopValues(Cities(vacancies), CitySummary(vacancies))
    ensures forall c :: c in CitySummary(vacancies) ==>
              ',' !in c && exists v :: v in vacancies && c == CityOf(v.address)
  {
    var cities := Cities(vacancies);
    TopValuesCorrect(cities);
    forall c | c in CitySummary(vacancies) ensures exists v :: v in vacancies && c == CityOf(v.address) {
      var k :| 0 <= k < |cities| && cities[k] == c;
      assert vacancies[k] in vacancies;
    }
  }

  /** The organisation summary is a top-ten of the vacancies' organisations. */
  lemma OrganisationSummaryCorrect(vacancies: seq<Vacancy>)
    ensures IsTopValues(Organisations(vacancies), OrganisationSummary(vacancies))
    ensures forall o :: o in OrganisationSummary(vacancies) ==> exists v :: v in vacancies && o == v.organisation
  {
    var orgs := Organisations(vacancies);
    TopValuesCorrect(orgs);
    forall o | o in OrganisationSummary(vacancies) ensures exists v :: v in vacancies && o == v.organisation {
      var k :| 0 <= k < |orgs| && orgs[k] == o;
      assert vacancies[k] in vacancies;
    }
  }
}
