/** The election results data (lib/electionData.ts): the lookups over the races and the
    electoral maps, and the tallies of the seeded races, reduced to the numbers. */
module ElectionData {

  import opened Wrappers
  import opened Types
  import Seqs

  /** `getRaceById(raceId)`: the first race with that id. */
  function RaceById(races: seq<ElectionRace>, raceId: string): (r: Option<ElectionRace>)
    ensures r.None? <==> forall race :: race in races ==> race.id != raceId
    ensures r.Some? ==> exists i :: 0 <= i < |races| && races[i] == r.value && r.value.id == raceId
                                   && (forall j :: 0 <= j < i ==> races[j].id != raceId)
  {
    var i := Seqs.FindIndex(races, (race: ElectionRace) => race.id == raceId);
    if i < 0 then None else Some(races[i])
  }

  /** `getMapByRaceId(raceId)`: the first map of that race. */
  function MapByRaceId(maps: seq<ElectoralMap>, raceId: string): (r: Option<ElectoralMap>)
    ensures r.None? <==> forall m :: m in maps ==> m.raceId != raceId
    ensures r.Some? ==> exists i :: 0 <= i < |maps| && maps[i] == r.value && r.value.raceId == raceId
                                   && (forall j :: 0 <= j < i ==> maps[j].raceId != raceId)
  {
    var i := Seqs.FindIndex(maps, (m: ElectoralMap) => m.raceId == raceId);
    if i < 0 then None else Some(maps[i])
  }

  function HasStatus(status: RaceStatus): ElectionRace -> bool
  {
    (race: ElectionRace) => race.status == status
  }

  /** `getLiveRaces()`: the live races, in order. */
  function LiveRaces(races: seq<ElectionRace>): (r: seq<ElectionRace>)
    ensures Seqs.IsSubseq(r, races)
    ensures forall race :: race in r <==> race in races && race.status == Live
  {
    Seqs.Filter(races, HasStatus(Live))
  }

  /** `getFinalRaces()`: the finished races, in order. */
  function FinalRaces(races: seq<ElectionRace>): (r: seq<ElectionRace>)
    ensures Seqs.IsSubseq(r, races)
    ensures forall race :: race in r <==> race in races && race.status == Final
  {
    Seqs.Filter(races, HasStatus(Final))
  }

  /** No race is both live and final, so the two lists together are never longer than
      the race list. */
  lemma LiveAndFinalDisjoint(races: seq<ElectionRace>)
    ensures forall race :: race in LiveRaces(races) ==> race !in FinalRaces(races)
    ensures |LiveRaces(races)| + |FinalRaces(races)| <= |races|
  {
    Seqs.FilterLength(races, HasStatus(Live));
    Seqs.FilterLength(races, HasStatus(Final));
    LiveFinalCount(races);
  }

  lemma {:induction false} LiveFinalCount(races: seq<ElectionRace>)
    ensures Seqs.Count(races, HasStatus(Live)) + Seqs.Count(races, HasStatus(Final)) <= |races|
  {
    if races != [] {
      LiveFinalCount(races[1..]);
    }
  }

  // ---------------------------------------------------------------------
  // The tallies of a race
  // ---------------------------------------------------------------------

  /** A candidate's result, without the names, party and photo. */
  datatype Tally = Tally(votes: int, percentage: int, isWinner: bool)

  function TallyOf(c: Candidate): Tally
  {
    Tally(c.votes, c.percentage, c.isWinner)
  }

  function VoteSum(ts: seq<Tally>): int
  {
    if ts == [] then 0 else ts[0].votes + VoteSum(ts[1..])
  }

  function PercentageSum(ts: seq<Tally>): int
  {
    if ts == [] then 0 else ts[0].percentage + PercentageSum(ts[1..])
  }

  function WinnerCount(ts: seq<Tally>): nat
  {
    if ts == [] then 0 else (if ts[0].isWinner then 1 else 0) + WinnerCount(ts[1..])
  }

  /** The tallies add up to the race total and to 100 percent, and exactly one candidate,
      one with the most votes, is marked the winner. */
  predicate Consistent(ts: seq<Tally>, totalVotes: int)
  {
    && VoteSum(ts) == totalVotes
    && PercentageSum(ts) == 100
    && WinnerCount(ts) == 1
    && forall i, j :: 0 <= i < |ts| && 0 <= j < |ts| && ts[i].isWinner ==> ts[j].votes <= ts[i].votes
  }

  /** With exactly one winner flag, the winner is a single, well-defined candidate. */
  lemma {:induction false} OneWinner(ts: seq<Tally>) returns (w: nat)
    requires WinnerCount(ts) == 1
    ensures w < |ts| && ts[w].isWinner
    ensures forall i :: 0 <= i < |ts| && i != w ==> !ts[i].isWinner
  {
    if ts[0].isWinner {
      NoWinner(ts[1..]);
      w := 0;
    } else {
      var k := OneWinner(ts[1..]);
      w := k + 1;
    }
  }

  lemma {:induction false} NoWinner(ts: seq<Tally>)
    requires WinnerCount(ts) == 0
    ensures forall i :: 0 <= i < |ts| ==> !ts[i].isWinner
  {
    if ts != [] {
      NoWinner(ts[1..]);
    }
  }

  /** A seeded race, reduced to what the consistency of its figures is about. */
  datatype SeedRace = SeedRace(id: string, totalVotes: int, status: RaceStatus, tallies: seq<Tally>)

  const SeedRaces: seq<SeedRace> := [
    SeedRace("presidential-2024", 150000, Live,
      [Tally(67500, 45, true), Tally(52500, 35, false), Tally(30000, 20, false)]),
    SeedRace("parliamentary-male-2024", 12400, Live,
      [Tally(5200, 42, true), Tally(4500, 36, false), Tally(2700, 22, false)]),
    SeedRace("local-hulhumale-2024", 4380, Final,
      [Tally(2100, 48, true), Tally(1800, 41, false), Tally(480, 11, false)])
  ]

  /** Every seeded race is consistent: votes add up to its total, percentages to 100, and
      the one winner has the most votes. */
  lemma SeedRacesConsistent()
    ensures forall r :: r in SeedRaces ==> Consistent(r.tallies, r.totalVotes)
  {
    forall r | r in SeedRaces ensures Consistent(r.tallies, r.totalVotes) {
      var ts := r.tallies;
      assert VoteSum(ts) == ts[0].votes + ts[1].votes + ts[2].votes;
      assert PercentageSum(ts) == ts[0].percentage + ts[1].percentage + ts[2].percentage;
      assert WinnerCount(ts) == 1;
    }
  }
}
