/** The results table of one race (components/elections/LiveResults.tsx): a sort state
    flipped by the column headers, and the candidates sorted on a copy by the chosen
    column. `localeCompare` on names and parties is a parameter. */
module LiveResults {

  import opened Types
  import Seqs

  datatype SortField = NameField | PartyField | VotesField | PercentageField
  datatype SortDirection = Asc | Desc

  datatype SortState = SortState(field: SortField, direction: SortDirection)

  /** The state after clicking the header of `f`. */
  function NextSort(s: SortState, f: SortField): (r: SortState)
    ensures r.field == f
    ensures s.field == f ==> r.direction != s.direction
    ensures s.field != f ==> r.direction == Desc
  {
    if s.field == f then SortState(f, if s.direction == Asc then Desc else Asc)
    else SortState(f, Desc)
  }

  /** Two clicks on the same header give the sort back; a new column is first descending
      and then ascending. */
  lemma NextSortTwice(s: SortState, f: SortField)
    ensures s.field == f ==> NextSort(NextSort(s, f), f) == s
    ensures s.field != f ==> NextSort(NextSort(s, f), f) == SortState(f, Asc)
  {
  }

  /** The table's sort state; it starts at the percentage, descending. */
  class SortControl {
    var sortField: SortField
    var sortDirection: SortDirection

    constructor()
      ensures sortField == PercentageField && sortDirection == Desc
    {
      sortField := PercentageField;
      sortDirection := Desc;
    }

    /** `handleSort(field)`. */
    method HandleSort(f: SortField)
      modifies this
      ensures SortState(sortField, sortDirection) == NextSort(SortState(old(sortField), old(sortDirection)), f)
    {
      if sortField == f {
        sortDirection := if sortDirection == Asc then Desc else Asc;
      } else {
        sortField := f;
        sortDirection := Desc;
      }
    }
  }

  /** The text of the interface language. */
  function InLanguage(t: BilingualText, code: LanguageCode): string
  {
    if code == En then t.en else t.dv
  }

  /** The comparator's `comparison` for the chosen column; `compare` is `localeCompare`. */
  function Comparison(field: SortField, code: LanguageCode, compare: (string, string) -> int,
                      a: Candidate, b: Candidate): int
  {
    match field
    case NameField => compare(InLanguage(a.name, code), InLanguage(b.name, code))
    case PartyField => compare(InLanguage(a.party, code), InLanguage(b.party, code))
    case VotesField => a.votes - b.votes
    case PercentageField => a.percentage - b.percentage
  }

  /** The comparator as "may come before": its result, negated for a descending sort, is
      not positive. */
  function Comparator(s: SortState, code: LanguageCode, compare: (string, string) -> int): (Candidate, Candidate) -> bool
  {
    (a: Candidate, b: Candidate) =>
      (if s.direction == Asc then Comparison(s.field, code, compare, a, b)
       else -Comparison(s.field, code, compare, a, b)) <= 0
  }

  /** `compare` behaves like a consistent `localeCompare`: swapping the arguments flips the
      sign, and "not after" is transitive. */
  ghost predicate ConsistentCompare(compare: (string, string) -> int)
  {
    && (forall x, y :: (compare(x, y) < 0 <==> compare(y, x) > 0) && (compare(x, y) == 0 <==> compare(y, x) == 0))
    && (forall x, y, z :: compare(x, y) <= 0 && compare(y, z) <= 0 ==> compare(x, z) <= 0)
  }

  /** `sortedCandidates`: a sorted copy of the race's candidates. */
  function SortedCandidates(race: ElectionRace, s: SortState, code: LanguageCode,
                            compare: (string, string) -> int): (r: seq<Candidate>)
    ensures multiset(r) == multiset(race.candidates)
    ensures |r| == |race.candidates|
  {
    Seqs.SortPerm(race.candidates, Comparator(s, code, compare));
    Seqs.SortBy(race.candidates, Comparator(s, code, compare))
  }

  /** On the numeric columns the comparator is the key order of that column. */
  lemma NumericComparator(s: SortState, code: LanguageCode, compare: (string, string) -> int)
    requires s.field == VotesField || s.field == PercentageField
    ensures forall a, b :: Comparator(s, code, compare)(a, b) <==>
      match s.field
      case VotesField => if s.direction == Asc then a.votes <= b.votes else b.votes <= a.votes
      case _ => if s.direction == Asc then a.percentage <= b.percentage else b.percentage <= a.percentage
  {
  }

  /** With a consistent `localeCompare`, every column and direction gives a total
      preorder, so the sort is well defined. */
  lemma ComparatorIsTotal(s: SortState, code: LanguageCode, compare: (string, string) -> int)
    requires ConsistentCompare(compare)
    ensures Seqs.TotalPreorder(Comparator(s, code, compare))
  {
    var le := Comparator(s, code, compare);
    forall a, b ensures le(a, b) || le(b, a) {
      ComparisonFlips(s.field, code, compare, a, b);
    }
    forall a, b, c | le(a, b) && le(b, c) ensures le(a, c) {
      ComparisonChains(s.field, code, compare, a, b, c);
    }
  }

  /** Swapping the rows flips the sign of the comparison. */
  lemma ComparisonFlips(field: SortField, code: LanguageCode, compare: (string, string) -> int,
                        a: Candidate, b: Candidate)
    requires ConsistentCompare(compare)
    ensures Comparison(field, code, compare, a, b) <= 0 <==> Comparison(field, code, compare, b, a) >= 0
  {
  }

  /** "Not after" chains, in either direction. */
  lemma ComparisonChains(field: SortField, code: LanguageCode, compare: (string, string) -> int,
                         a: Candidate, b: Candidate, c: Candidate)
    requires ConsistentCompare(compare)
    ensures Comparison(field, code, compare, a, b) <= 0 && Comparison(field, code, compare, b, c) <= 0 ==>
      Comparison(field, code, compare, a, c) <= 0
    ensures Comparison(field, code, compare, a, b) >= 0 && Comparison(field, code, compare, b, c) >= 0 ==>
      Comparison(field, code, compare, a, c) >= 0
  {
    if field == NameField || field == PartyField {
      var ka := if field == NameField then InLanguage(a.name, code) else InLanguage(a.party, code);
      var kb := if field == NameField then InLanguage(b.name, code) else InLanguage(b.party, code);
      var kc := if field == NameField then InLanguage(c.name, code) else InLanguage(c.party, code);
      assert Comparison(field, code, compare, a, b) == compare(ka, kb);
      assert Comparison(field, code, compare, b, c) == compare(kb, kc);
      assert Comparison(field, code, compare, a, c) == compare(ka, kc);
      if compare(ka, kb) >= 0 && compare(kb, kc) >= 0 {
        assert compare(kb, ka) <= 0 && compare(kc, kb) <= 0;
        assert compare(kc, ka) <= 0;
      }
    }
  }

  /** With a consistent `localeCompare`, the rows are ordered by the chosen column and
      direction, and rows that compare equal keep the race's order. */
  lemma SortedCandidatesOrdered(race: ElectionRace, s: SortState, code: LanguageCode,
                                compare: (string, string) -> int)
    requires ConsistentCompare(compare)
    ensures Seqs.SortedBy(SortedCandidates(race, s, code, compare), Comparator(s, code, compare))
    ensures forall k :: Seqs.EquivRun(SortedCandidates(race, s, code, compare), Comparator(s, code, compare), k)
                     == Seqs.EquivRun(race.candidates, Comparator(s, code, compare), k)
  {
    var le := Comparator(s, code, compare);
    ComparatorIsTotal(s, code, compare);
    Seqs.SortSorted(race.candidates, le);
    forall k ensures Seqs.EquivRun(SortedCandidates(race, s, code, compare), le, k)
                  == Seqs.EquivRun(race.candidates, le, k)
    {
      Seqs.SortStable(race.candidates, le, k);
    }
  }

  /** Sorting by votes: ascending gives non-decreasing counts, descending non-increasing
      counts, and the rows are the race's candidates. */
  lemma SortedByVotes(race: ElectionRace, dir: SortDirection, code: LanguageCode,
                      compare: (string, string) -> int)
    ensures var r := SortedCandidates(race, SortState(VotesField, dir), code, compare);
      && multiset(r) == multiset(race.candidates)
      && (dir == Asc ==> forall i, j :: 0 <= i < j < |r| ==> r[i].votes <= r[j].votes)
      && (dir == Desc ==> forall i, j :: 0 <= i < j < |r| ==> r[i].votes >= r[j].votes)
  {
    var s := SortState(VotesField, dir);
    var le := Comparator(s, code, compare);
    NumericComparator(s, code, compare);
    assert Seqs.TotalPreorder(le);
    Seqs.SortSorted(race.candidates, le);
    var r := SortedCandidates(race, s, code, compare);
    assert Seqs.SortedBy(r, le);
  }

  /** Sorting by percentage, as for votes. */
  lemma SortedByPercentage(race: ElectionRace, dir: SortDirection, code: LanguageCode,
                           compare: (string, string) -> int)
    ensures var r := SortedCandidates(race, SortState(PercentageField, dir), code, compare);
      && multiset(r) == multiset(race.candidates)
      && (dir == Asc ==> forall i, j :: 0 <= i < j < |r| ==> r[i].percentage <= r[j].percentage)
      && (dir == Desc ==> forall i, j :: 0 <= i < j < |r| ==> r[i].percentage >= r[j].percentage)
  {
    var s := SortState(PercentageField, dir);
    var le := Comparator(s, code, compare);
    NumericComparator(s, code, compare);
    assert Seqs.TotalPreorder(le);
    Seqs.SortSorted(race.candidates, le);
    var r := SortedCandidates(race, s, code, compare);
    assert Seqs.SortedBy(r, le);
  }

  /** By default (percentage, descending) the leading candidate comes first. */
  lemma DefaultSortLeaderFirst(race: ElectionRace, code: LanguageCode, compare: (string, string) -> int)
    requires race.candidates != []
    ensures var r := SortedCandidates(race, SortState(PercentageField, Desc), code, compare);
      forall c :: c in race.candidates ==> c.percentage <= r[0].percentage
  {
    SortedByPercentage(race, Desc, code, compare);
    var r := SortedCandidates(race, SortState(PercentageField, Desc), code, compare);
    forall c | c in race.candidates ensures c.percentage <= r[0].percentage {
      assert c in multiset(r);
      var i :| 0 <= i < |r| && r[i] == c;
    }
  }
}
