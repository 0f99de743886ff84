/**
 * `get_vacancies` of app/data/crud.py. With no filter value given it pages
 * the whole vacancy table. Otherwise it pages the rows of the inner join of
 * vacancies with their tags that pass an OR of three tests (the row's tag
 * name is requested, the vacancy's organisation is requested, the address
 * contains the city text ignoring case), and the ORM then keeps each vacancy
 * once, at its first row.
 */
module VacancyListing {
  import opened Wrappers
  import opened Models
  import opened Tables

  /** The listing filters; each of them may be missing. */
  datatype VacancyFilters = VacancyFilters(
    tags: Option<seq<string>>,
    organisations: Option<seq<string>>,
    city: Option<string>)

  /** Missing tags are read as the empty list. */
  function RequestedTags(f: VacancyFilters): seq<string>
  {
    if f.tags.Some? then f.tags.value else []
  }

  /** Missing organisations are read as the empty list. */
  function RequestedOrganisations(f: VacancyFilters): seq<string>
  {
    if f.organisations.Some? then f.organisations.value else []
  }

  /** `any(data.values())`: some filter value is truthy (a non-empty list or text). */
  predicate AnyFilterGiven(f: VacancyFilters)
  {
    |RequestedTags(f)| > 0 || |RequestedOrganisations(f)| > 0 || (f.city.Some? && f.city.value != "")
  }

  /** The text put between the `%` wildcards: a missing city is formatted as "None". */
  function CityPattern(f: VacancyFilters): string
  {
    if f.city.Some? then f.city.value else "None"
  }

  // ---------------------------------------------------------------------
  // Case-insensitive substring match (ILIKE '%pattern%')
  // ---------------------------------------------------------------------

  /** The Latin and the basic Cyrillic capital letters. */
  predicate IsCapital(c: char)
  {
    'A' <= c <= 'Z' || 'А' <= c <= 'Я' || c == 'Ё'
  }

  /** The Latin and the basic Cyrillic small letters. */
  predicate IsSmall(c: char)
  {
    'a' <= c <= 'z' || 'а' <= c <= 'я' || c == 'ё'
  }

  /** Upper-cases the Latin and the basic Cyrillic small letters; other characters are kept. */
  function Upper(c: char): (r: char)
    ensures IsSmall(c) ==> IsCapital(r)
    ensures !IsSmall(c) ==> r == c
  {
    if 'a' <= c <= 'z' then (c as int - 32) as char
    else if 'а' <= c <= 'я' then (c as int - 32) as char
    else if c == 'ё' then 'Ё'
    else c
  }

  /** Lower-cases the Latin and the basic Cyrillic capitals; other characters are kept. */
  function FoldChar(c: char): (r: char)
    ensures IsCapital(c) ==> IsSmall(r) && Upper(r) == c
    ensures !IsCapital(c) ==> r == c
    ensures !IsCapital(r)
  {
    if 'A' <= c <= 'Z' then (c as int + 32) as char
    else if 'А' <= c <= 'Я' then (c as int + 32) as char
    else if c == 'Ё' then 'ё'
    else c
  }

  /** Folding undoes `Upper` on the small letters, and `Upper` undoes folding on the capitals. */
  lemma CaseRoundTrip(c: char)
    ensures IsSmall(c) ==> FoldChar(Upper(c)) == c
    ensures IsCapital(c) ==> Upper(FoldChar(c)) == c
  {
  }

  /** Two different small letters stay different once folded, so they never match each other. */
  lemma DistinctLettersDiffer(a: char, b: char)
    requires IsSmall(a) && IsSmall(b) && a != b
    ensures FoldChar(a) != FoldChar(b) && FoldChar(Upper(a)) != FoldChar(b)
  {
    CaseRoundTrip(a);
  }

  /** The text with every capital replaced by its small letter. */
  function Fold(s: string): (r: string)
    ensures |r| == |s|
    ensures forall i :: 0 <= i < |s| && IsCapital(s[i]) ==> IsSmall(r[i]) && Upper(r[i]) == s[i]
    ensures forall i :: 0 <= i < |s| && !IsCapital(s[i]) ==> r[i] == s[i]
    ensures forall i :: 0 <= i < |r| ==> !IsCapital(r[i])
    ensures (forall i :: 0 <= i < |s| ==> !IsCapital(s[i])) ==> r == s
  {
    seq(|s|, i requires 0 <= i < |s| => FoldChar(s[i]))
  }

  /** Two texts that differ at most in the case of their letters. */
  predicate SameIgnoringCase(a: string, b: string)
  {
    |a| == |b| && forall i :: 0 <= i < |a| ==> FoldChar(a[i]) == FoldChar(b[i])
  }

  /** `pattern` occurs in `text` at some position. */
  predicate HasInfix(text: string, pattern: string)
    decreases |text|
  {
    pattern <= text || (|text| > 0 && HasInfix(text[1..], pattern))
  }

  predicate ContainsIgnoringCase(text: string, pattern: string)
  {
    HasInfix(Fold(text), Fold(pattern))
  }

  /** The empty pattern (`'%%'`) matches every address. */
  lemma EmptyPatternMatchesAll(text: string)
    ensures ContainsIgnoringCase(text, "")
  {
  }

  /** `pattern` occurs in `text` starting at position `i`. */
  predicate OccursAt(text: string, pattern: string, i: int)
  {
    0 <= i <= |text| - |pattern| && text[i..i + |pattern|] == pattern
  }

  /** `HasInfix` finds exactly the positions where the pattern occurs. */
  lemma {:induction false} HasInfixIff(text: string, pattern: string)
    ensures HasInfix(text, pattern) <==> exists i :: OccursAt(text, pattern, i)
  {
    if |text| > 0 {
      HasInfixIff(text[1..], pattern);
      if exists i :: OccursAt(text, pattern, i) {
        var i :| OccursAt(text, pattern, i);
        if i > 0 {
          assert text[1..][i - 1..i - 1 + |pattern|] == pattern;
          assert OccursAt(text[1..], pattern, i - 1);
        }
      }
      if exists i :: OccursAt(text[1..], pattern, i) {
        var i :| OccursAt(text[1..], pattern, i);
        assert text[i + 1..i + 1 + |pattern|] == pattern;
        assert OccursAt(text, pattern, i + 1);
      }
      if pattern <= text {
        assert OccursAt(text, pattern, 0);
      }
    } else if pattern <= text {
      assert OccursAt(text, pattern, 0);
    }
  }

  /** The match ignores case: changing the case of letters in either text changes nothing. */
  lemma MatchIgnoresCase(text: string, text': string, pattern: string, pattern': string)
    requires SameIgnoringCase(text, text') && SameIgnoringCase(pattern, pattern')
    ensures ContainsIgnoringCase(text, pattern) <==> ContainsIgnoringCase(text', pattern')
  {
    assert Fold(text) == Fold(text');
    assert Fold(pattern) == Fold(pattern');
  }

  /** "Москва" is found in "г. МОСКВА". */
  lemma MatchExample()
    ensures ContainsIgnoringCase("г. МОСКВА", "Москва")
  {
    var text := Fold("г. МОСКВА");
    var pattern := Fold("Москва");
    assert pattern == "москва";
    assert text == "г. москва";
    assert pattern <= text[3..];
    assert HasInfix(text[3..], pattern);
    assert HasInfix(text[2..], pattern);
    assert HasInfix(text[1..], pattern);
  }

  // ---------------------------------------------------------------------
  // The inner join of vacancies with tags
  // ---------------------------------------------------------------------

  /** The names of the tags linked to `v`, in link order; links to no tag drop out. */
  function TagNames(v: Vacancy, tags: seq<Tag>): seq<string>
  {
    NamesOf(v.tagIds, tags)
  }

  /** The names of the tags with keys `ids`, in order; a key of no tag has no name. */
  function NamesOf(ids: seq<int>, tags: seq<Tag>): (r: seq<string>)
    ensures |r| <= |ids|
    ensures forall name :: name in r <==>
              exists i :: 0 <= i < |ids| && TagById(tags, ids[i]).Some? && TagById(tags, ids[i]).value.name == name
    ensures (forall i :: 0 <= i < |ids| ==> TagById(tags, ids[i]).Some?) ==>
              && |r| == |ids|
              && forall i :: 0 <= i < |ids| ==> r[i] == TagById(tags, ids[i]).value.name
  {
    if ids == [] then []
    else
      var rest := NamesOf(ids[1..], tags);
      match TagById(tags, ids[0])
      case Some(t) => [t.name] + rest
      case None => rest
  }

  /** One row per (vacancy, linked tag name), vacancies in table order. */
  function JoinRows(vacancies: seq<Vacancy>, tags: seq<Tag>): seq<(Vacancy, string)>
  {
    if vacancies == [] then []
    else RowsOf(vacancies[0], TagNames(vacancies[0], tags)) + JoinRows(vacancies[1..], tags)
  }

  /** The join rows of one vacancy: one per tag name. */
  function RowsOf(v: Vacancy, names: seq<string>): seq<(Vacancy, string)>
  {
    seq(|names|, i requires 0 <= i < |names| => (v, names[i]))
  }

  /** A join row is exactly a vacancy of the table paired with one of its tag names. */
  lemma {:induction false} JoinRowsMembership(vacancies: seq<Vacancy>, tags: seq<Tag>, row: (Vacancy, string))
    ensures row in JoinRows(vacancies, tags) <==> row.0 in vacancies && row.1 in TagNames(row.0, tags)
  {
    if vacancies != [] {
      JoinRowsMembership(vacancies[1..], tags, row);
      var here := RowsOf(vacancies[0], TagNames(vacancies[0], tags));
      assert JoinRows(vacancies, tags) == here + JoinRows(vacancies[1..], tags);
      assert row in here <==> row.0 == vacancies[0] && row.1 in TagNames(vacancies[0], tags) by {
        if row in here {
          var i :| 0 <= i < |here| && here[i] == row;
        }
        if row.0 == vacancies[0] && row.1 in TagNames(vacancies[0], tags) {
          var i :| 0 <= i < |TagNames(vacancies[0], tags)| && TagNames(vacancies[0], tags)[i] == row.1;
          assert here[i] == row;
        }
      }
      assert row.0 in vacancies <==> row.0 == vacancies[0] || row.0 in vacancies[1..];
    }
  }

  // ---------------------------------------------------------------------
  // The filter
  // ---------------------------------------------------------------------

  /** The OR condition of the query, evaluated on one join row. */
  predicate RowMatches(row: (Vacancy, string), f: VacancyFilters)
  {
    || row.1 in RequestedTags(f)
    || row.0.organisation in RequestedOrganisations(f)
    || ContainsIgnoringCase(row.0.address, CityPattern(f))
  }

  /** A vacancy is listed (given enough room) when one of its join rows matches. */
  predicate VacancyMatches(v: Vacancy, tags: seq<Tag>, f: VacancyFilters)
  {
    exists name :: name in TagNames(v, tags) && RowMatches((v, name), f)
  }

  /**
   * The vacancy-level reading of the filter: it has a requested tag, or it has
   * some tag and its organisation or address matches.
   */
  lemma VacancyMatchesIff(v: Vacancy, tags: seq<Tag>, f: VacancyFilters)
    ensures VacancyMatches(v, tags, f) <==>
              || (exists name :: name in TagNames(v, tags) && name in RequestedTags(f))
              || (|TagNames(v, tags)| > 0 && (|| v.organisation in RequestedOrganisations(f)
                                             || ContainsIgnoringCase(v.address, CityPattern(f))))
  {
    if |TagNames(v, tags)| > 0 {
      var first := TagNames(v, tags)[0];
      assert first in TagNames(v, tags);
    }
  }

  /** Keeps the first row of each primary key, as the ORM's identity map does. */
  function FirstOfEachId(vs: seq<Vacancy>, seen: set<int>): (r: seq<Vacancy>)
    ensures |r| <= |vs|
    ensures forall v :: v in r ==> v in vs && v.id !in seen
  {
    if vs == [] then []
    else if vs[0].id in seen then FirstOfEachId(vs[1..], seen)
    else [vs[0]] + FirstOfEachId(vs[1..], seen + {vs[0].id})
  }

  /** Every key not yet seen is still represented after the deduplication. */
  lemma {:induction false} FirstOfEachIdKeepsIds(vs: seq<Vacancy>, seen: set<int>, v: Vacancy)
    requires v in vs && v.id !in seen
    ensures exists w :: w in FirstOfEachId(vs, seen) && w.id == v.id
  {
    if vs[0].id in seen {
      FirstOfEachIdKeepsIds(vs[1..], seen, v);
    } else if vs[0].id != v.id {
      FirstOfEachIdKeepsIds(vs[1..], seen + {vs[0].id}, v);
      var w :| w in FirstOfEachId(vs[1..], seen + {vs[0].id}) && w.id == v.id;
      assert w in FirstOfEachId(vs, seen);
    } else {
      assert vs[0] in FirstOfEachId(vs, seen);
    }
  }

  /** The rows of the filtered join, as vacancies. */
  function FilteredVacancies(vacancies: seq<Vacancy>, tags: seq<Tag>, f: VacancyFilters): seq<Vacancy>
  {
    Firsts(Select(JoinRows(vacancies, tags), row => RowMatches(row, f)))
  }

  /** `get_vacancies(filters, offset, limit)` over the vacancy and tag tables. */
  function GetVacancies(vacancies: seq<Vacancy>, tags: seq<Tag>, f: VacancyFilters, offset: nat, limit: nat): (r: seq<Vacancy>)
    ensures |r| <= limit
    ensures !AnyFilterGiven(f) ==> r == Page(vacancies, offset, limit)
  {
    if !AnyFilterGiven(f) then Page(vacancies, offset, limit)
    else FirstOfEachId(Page(FilteredVacancies(vacancies, tags, f), offset, limit), {})
  }

  /** With a filter given, every listed vacancy is a tagged vacancy of the table that matches. */
  lemma GetVacanciesSound(vacancies: seq<Vacancy>, tags: seq<Tag>, f: VacancyFilters, offset: nat, limit: nat, v: Vacancy)
    requires AnyFilterGiven(f) && v in GetVacancies(vacancies, tags, f, offset, limit)
    ensures v in vacancies && |TagNames(v, tags)| > 0 && VacancyMatches(v, tags, f)
  {
    var matching := Select(JoinRows(vacancies, tags), row => RowMatches(row, f));
    var all := Firsts(matching);
    var page := Page(all, offset, limit);
    assert v in page;
    var i :| 0 <= i < |page| && page[i] == v;
    assert |all| == |matching| && all[offset + i] == matching[offset + i].0;
    var row := matching[offset + i];
    assert row in matching && row.0 == v;
    JoinRowsMembership(vacancies, tags, row);
    assert row.1 in TagNames(v, tags);
  }

  /** The filtered rows hold one vacancy per matching join row, each from the table. */
  lemma FilteredVacanciesSound(vacancies: seq<Vacancy>, tags: seq<Tag>, f: VacancyFilters, w: Vacancy)
    requires w in FilteredVacancies(vacancies, tags, f)
    ensures w in vacancies
  {
    var matching := Select(JoinRows(vacancies, tags), row => RowMatches(row, f));
    var all := Firsts(matching);
    var j :| 0 <= j < |all| && all[j] == w;
    assert matching[j] in matching && matching[j].0 == w;
    JoinRowsMembership(vacancies, tags, matching[j]);
  }

  /** A matching vacancy of the table is among the filtered rows, which are no more than the join rows. */
  lemma FilteredVacanciesCover(vacancies: seq<Vacancy>, tags: seq<Tag>, f: VacancyFilters, v: Vacancy)
    requires v in vacancies && VacancyMatches(v, tags, f)
    ensures v in FilteredVacancies(vacancies, tags, f)
    ensures |FilteredVacancies(vacancies, tags, f)| <= |JoinRows(vacancies, tags)|
  {
    var name :| name in TagNames(v, tags) && RowMatches((v, name), f);
    JoinRowsMembership(vacancies, tags, (v, name));
    var matching := Select(JoinRows(vacancies, tags), row => RowMatches(row, f));
    assert (v, name) in matching;
    var all := Firsts(matching);
    var k :| 0 <= k < |matching| && matching[k] == (v, name);
    assert all[k] == v;
  }

  /**
   * With a filter given and a first page long enough for every join row, every
   * tagged vacancy that matches is listed (table ids being unique).
   */
  lemma GetVacanciesComplete(vacancies: seq<Vacancy>, tags: seq<Tag>, f: VacancyFilters, limit: nat, v: Vacancy)
    requires AnyFilterGiven(f) && UniqueVacancyIds(vacancies)
    requires limit >= |JoinRows(vacancies, tags)|
    requires v in vacancies && VacancyMatches(v, tags, f)
    ensures v in GetVacancies(vacancies, tags, f, 0, limit)
  {
    var all := FilteredVacancies(vacancies, tags, f);
    FilteredVacanciesCover(vacancies, tags, f, v);
    FirstPageIsTable(all, limit);
    FirstOfEachIdKeepsIds(all, {}, v);
    var w :| w in FirstOfEachId(all, {}) && w.id == v.id;
    FilteredVacanciesSound(vacancies, tags, f, w);
    SameIdSameVacancy(vacancies, v, w);
  }

  lemma SameIdSameVacancy(vacancies: seq<Vacancy>, v: Vacancy, w: Vacancy)
    requires UniqueVacancyIds(vacancies) && v in vacancies && w in vacancies && v.id == w.id
    ensures v == w
  {
    var i :| 0 <= i < |vacancies| && vacancies[i] == v;
    var j :| 0 <= j < |vacancies| && vacancies[j] == w;
    assert vacancies[i].id == vacancies[j].id;
  }

  /** No vacancy is listed twice on a filtered page. */
  lemma {:induction false} FirstOfEachIdDistinct(vs: seq<Vacancy>, seen: set<int>)
    ensures forall i, j :: 0 <= i < j < |FirstOfEachId(vs, seen)| ==>
              FirstOfEachId(vs, seen)[i].id != FirstOfEachId(vs, seen)[j].id
  {
    if vs != [] {
      if vs[0].id in seen {
        FirstOfEachIdDistinct(vs[1..], seen);
      } else {
        FirstOfEachIdDistinct(vs[1..], seen + {vs[0].id});
        var rest := FirstOfEachId(vs[1..], seen + {vs[0].id});
        assert forall w :: w in rest ==> w.id != vs[0].id;
        assert FirstOfEachId(vs, seen) == [vs[0]] + rest;
        forall i, j | 0 <= i < j < |[vs[0]] + rest|
          ensures ([vs[0]] + rest)[i].id != ([vs[0]] + rest)[j].id
        {
          if i == 0 {
            assert ([vs[0]] + rest)[j] == rest[j - 1];
            assert rest[j - 1] in rest;
          } else {
            assert ([vs[0]] + rest)[i] == rest[i - 1];
            assert ([vs[0]] + rest)[j] == rest[j - 1];
          }
        }
      }
    }
  }

  /**
   * The city text "" becomes the pattern '%%': once any other filter is given,
   * every tagged vacancy matches, whatever tags or organisations were asked for.
   */
  lemma EmptyCityMatchesEveryTaggedVacancy(v: Vacancy, tags: seq<Tag>, f: VacancyFilters)
    requires f.city == Some("")
    ensures VacancyMatches(v, tags, f) <==> |TagNames(v, tags)| > 0
  {
    EmptyPatternMatchesAll(v.address);
    VacancyMatchesIff(v, tags, f);
  }

  /**
   * A missing city becomes the pattern '%None%': a tagged vacancy whose address
   * contains "none" in any case matches whatever tags or organisations were asked for.
   */
  lemma MissingCityMatchesNone(v: Vacancy, tags: seq<Tag>, f: VacancyFilters)
    requires f.city == None
    requires |TagNames(v, tags)| > 0 && ContainsIgnoringCase(v.address, "None")
    ensures VacancyMatches(v, tags, f)
  {
    VacancyMatchesIff(v, tags, f);
  }
}
