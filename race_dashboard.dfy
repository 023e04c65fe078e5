/** The race list with its status filter (components/elections/RaceDashboard.tsx). */
module RaceDashboard {

  import opened Types
  import Seqs

  datatype RaceFilter = AllRaces | LiveOnly | FinalOnly | UpcomingOnly

  /** The filter shown first. */
  const InitialFilter: RaceFilter := AllRaces

  /** The race status a filter other than `all` selects. */
  function StatusOf(f: RaceFilter): RaceStatus
    requires f != AllRaces
  {
    match f
    case LiveOnly => Live
    case FinalOnly => Final
    case UpcomingOnly => Upcoming
  }

  function Keeps(f: RaceFilter): ElectionRace -> bool
  {
    (race: ElectionRace) => f == AllRaces || race.status == StatusOf(f)
  }

  /** `filteredRaces`: every race for `all`, otherwise the races with that status, in
      order. */
  function FilteredRaces(races: seq<ElectionRace>, f: RaceFilter): (r: seq<ElectionRace>)
    ensures Seqs.IsSubseq(r, races)
    ensures f == AllRaces ==> r == races
    ensures f != AllRaces ==> forall race :: race in r <==> race in races && race.status == StatusOf(f)
  {
    if f == AllRaces then Seqs.FilterAll(races, Keeps(f)); Seqs.Filter(races, Keeps(f))
    else Seqs.Filter(races, Keeps(f))
  }

  /** `getFilterCount(f)`: the race count for `all`, otherwise the length of the filtered
      list; in both cases the length of what that filter shows. */
  function FilterCount(races: seq<ElectionRace>, f: RaceFilter): (n: nat)
    ensures n == |FilteredRaces(races, f)|
    ensures f == AllRaces ==> n == |races|
  {
    if f == AllRaces then |races| else |Seqs.Filter(races, Keeps(f))|
  }

  /** Every race has one of the three statuses, so the `all` count is the sum of the
      other three. */
  lemma {:induction false} AllIsSumOfStatuses(races: seq<ElectionRace>)
    ensures FilterCount(races, AllRaces)
         == FilterCount(races, LiveOnly) + FilterCount(races, FinalOnly) + FilterCount(races, UpcomingOnly)
  {
    Seqs.FilterLength(races, Keeps(LiveOnly));
    Seqs.FilterLength(races, Keeps(FinalOnly));
    Seqs.FilterLength(races, Keeps(UpcomingOnly));
    StatusCounts(races);
  }

  lemma {:induction false} StatusCounts(races: seq<ElectionRace>)
    ensures |races| == Seqs.Count(races, Keeps(LiveOnly)) + Seqs.Count(races, Keeps(FinalOnly))
                     + Seqs.Count(races, Keeps(UpcomingOnly))
  {
    if races != [] {
      StatusCounts(races[1..]);
    }
  }
}
