/** The regional results map (components/elections/ElectoralMap.tsx): the colour of each
    region, its vote total, the percentages of its tooltip and the summary counts. */
module ElectoralMapView {

  import opened Wrappers
  import opened Types
  import Seqs

  /** The colour of a region without a known winner. */
  const NotReportedColor: string := "#E5E7EB"

  /** `getCandidateById(id)`: nothing for a missing or empty id (both are falsy), otherwise
      the first candidate with that id. */
  function CandidateById(candidates: seq<Candidate>, id: Option<string>): (r: Option<Candidate>)
    ensures (id.None? || id == Some("")) ==> r.None?
    ensures id.Some? && id.value != "" ==>
      && (r.None? <==> forall c :: c in candidates ==> c.id != id.value)
      && (r.Some? ==> exists i :: 0 <= i < |candidates| && candidates[i] == r.value && r.value.id == id.value
                                 && (forall j :: 0 <= j < i ==> candidates[j].id != id.value))
  {
    if id.None? || id.value == "" then None
    else
      var i := Seqs.FindIndex(candidates, (c: Candidate) => c.id == id.value);
      if i < 0 then None else Some(candidates[i])
  }

  /** `getRegionColor(winnerId)`: the winner's party colour, or the grey of an unreported
      region when the winner is unknown or has an empty colour. */
  function RegionColor(candidates: seq<Candidate>, winnerId: Option<string>): (color: string)
    ensures color != ""
    ensures color == NotReportedColor
            || exists c :: c in candidates && winnerId == Some(c.id) && c.partyColor == color
    ensures CandidateById(candidates, winnerId).None? || CandidateById(candidates, winnerId).value.partyColor == "" ==>
      color == NotReportedColor
    ensures CandidateById(candidates, winnerId).Some? && CandidateById(candidates, winnerId).value.partyColor != "" ==>
      color == CandidateById(candidates, winnerId).value.partyColor
  {
    var c := CandidateById(candidates, winnerId);
    if c.Some? && c.value.partyColor != "" then c.value.partyColor else NotReportedColor
  }

  /** A vote entry, with an unknown count read as 0. */
  function CountOf(v: Option<nat>): nat
  {
    if v.Some? then v.value else 0
  }

  /** A region's total: the sum of its vote entries, an unknown count adding nothing. */
  function RegionTotal(votes: seq<(string, Option<nat>)>): nat
  {
    if votes == [] then 0 else CountOf(votes[0].1) + RegionTotal(votes[1..])
  }

  /** No entry exceeds the total. */
  lemma {:induction false} EntryAtMostTotal(votes: seq<(string, Option<nat>)>, k: nat)
    requires k < |votes|
    ensures CountOf(votes[k].1) <= RegionTotal(votes)
  {
    if k > 0 {
      EntryAtMostTotal(votes[1..], k - 1);
    }
  }

  /** A region with no known count has a total of 0. */
  lemma {:induction false} UnknownCountsTotalZero(votes: seq<(string, Option<nat>)>)
    requires forall k :: 0 <= k < |votes| ==> votes[k].1.None?
    ensures RegionTotal(votes) == 0
  {
    if votes != [] {
      UnknownCountsTotalZero(votes[1..]);
    }
  }

  /** `Math.round((votes / total) * 100)` on exact rationals, and 0 for a total of 0: the
      integer nearest to the share, halves rounded up. */
  function Percentage(votes: nat, total: nat): (p: nat)
    ensures total == 0 ==> p == 0
    ensures total > 0 ==> 200 * votes - total < 2 * p * total <= 200 * votes + total
  {
    if total == 0 then 0
    else
      var p := (200 * votes + total) / (2 * total);
      var m := (200 * votes + total) % (2 * total);
      assert 200 * votes + total == p * (2 * total) + m && 0 <= m < 2 * total;
      p
  }

  /** A share of a total is at most 100 percent. */
  lemma PercentageAtMost100(votes: nat, total: nat)
    requires votes <= total
    ensures Percentage(votes, total) <= 100
  {
    if total > 0 {
      var p := Percentage(votes, total);
      assert 200 * votes + total <= 201 * total;
      ScaledBound(p, total);
    }
  }

  /** `2 * p * total <= 201 * total` bounds `p` by 100. */
  lemma ScaledBound(p: nat, total: nat)
    requires total > 0 && 2 * p * total <= 201 * total
    ensures p <= 100
  {
    if p >= 101 {
      assert false;
    }
  }

  /** A tooltip line: the candidate and the rounded share. */
  datatype TooltipLine = TooltipLine(candidate: Candidate, percentage: nat)

  /** The line of one vote entry: present when the id names a known candidate and the
      count is known, with the count's share of the total. */
  function EntryLine(candidates: seq<Candidate>, entry: (string, Option<nat>), total: nat): (r: Option<TooltipLine>)
    ensures r.Some? <==> CandidateById(candidates, Some(entry.0)).Some? && entry.1.Some?
    ensures r.Some? ==> && Some(r.value.candidate) == CandidateById(candidates, Some(entry.0))
                        && r.value.percentage == Percentage(entry.1.value, total)
  {
    var c := CandidateById(candidates, Some(entry.0));
    if c.None? || entry.1.None? then None else Some(TooltipLine(c.value, Percentage(entry.1.value, total)))
  }

  function Lines(candidates: seq<Candidate>, entries: seq<(string, Option<nat>)>, total: nat): (r: seq<TooltipLine>)
    ensures |r| <= |entries|
    ensures forall k :: 0 <= k < |entries| && EntryLine(candidates, entries[k], total).Some? ==>
      EntryLine(candidates, entries[k], total).value in r
    ensures forall l :: l in r ==> exists k :: 0 <= k < |entries| && EntryLine(candidates, entries[k], total) == Some(l)
  {
    if entries == [] then []
    else
      var rest := Lines(candidates, entries[1..], total);
      assert forall k :: 1 <= k < |entries| ==> entries[k] == entries[1..][k - 1];
      var e := EntryLine(candidates, entries[0], total);
      (if e.Some? then [e.value] else []) + rest
  }

  /** The tooltip of a region: for each vote entry in order, the known candidate and the
      share of the region's total, skipping unknown candidates and unknown counts. */
  function Tooltip(candidates: seq<Candidate>, region: Region): (r: seq<TooltipLine>)
    ensures |r| <= |region.votes|
    ensures forall k :: 0 <= k < |region.votes| && EntryLine(candidates, region.votes[k], RegionTotal(region.votes)).Some? ==>
      EntryLine(candidates, region.votes[k], RegionTotal(region.votes)).value in r
    ensures forall l :: l in r ==>
      exists k :: 0 <= k < |region.votes| && EntryLine(candidates, region.votes[k], RegionTotal(region.votes)) == Some(l)
  {
    Lines(candidates, region.votes, RegionTotal(region.votes))
  }

  /** Every share in a tooltip is at most 100 percent. */
  lemma TooltipAtMost100(candidates: seq<Candidate>, region: Region)
    ensures forall l :: l in Tooltip(candidates, region) ==> l.percentage <= 100
  {
    var total := RegionTotal(region.votes);
    forall l | l in Tooltip(candidates, region) ensures l.percentage <= 100 {
      var k :| 0 <= k < |region.votes| && EntryLine(candidates, region.votes[k], total) == Some(l);
      EntryAtMostTotal(region.votes, k);
      PercentageAtMost100(region.votes[k].1.value, total);
    }
  }

  // ---------------------------------------------------------------------
  // Summary counts
  // ---------------------------------------------------------------------

  function IsComplete(r: Region): bool { r.reportingPercentage == 100 }

  function IsCalled(r: Region): bool { r.winnerId.Some? }

  /** The number of regions at 100 percent reporting. */
  function CompleteCount(regions: seq<Region>): (n: nat)
    ensures n <= |regions|
    ensures n == Seqs.Count(regions, IsComplete)
  {
    Seqs.FilterLength(regions, IsComplete);
    |Seqs.Filter(regions, IsComplete)|
  }

  /** The number of regions with a winner named (an empty name counts as named). */
  function CalledCount(regions: seq<Region>): (n: nat)
    ensures n <= |regions|
    ensures n == Seqs.Count(regions, IsCalled)
  {
    Seqs.FilterLength(regions, IsCalled);
    |Seqs.Filter(regions, IsCalled)|
  }

  /** Every region is complete exactly when the complete count is the region count, and
      likewise for called regions. */
  lemma {:induction false} CountsReachTotal(regions: seq<Region>)
    ensures CompleteCount(regions) == |regions| <==> forall r :: r in regions ==> IsComplete(r)
    ensures CalledCount(regions) == |regions| <==> forall r :: r in regions ==> IsCalled(r)
  {
    CountIsLength(regions, IsComplete);
    CountIsLength(regions, IsCalled);
  }

  lemma {:induction false} CountIsLength(regions: seq<Region>, p: Region -> bool)
    ensures Seqs.Count(regions, p) == |regions| <==> forall r :: r in regions ==> p(r)
  {
    if regions != [] {
      CountIsLength(regions[1..], p);
      CountAtMostLength(regions[1..], p);
      assert forall r :: r in regions <==> r == regions[0] || r in regions[1..];
    }
  }

  lemma {:induction false} CountAtMostLength(regions: seq<Region>, p: Region -> bool)
    ensures Seqs.Count(regions, p) <= |regions|
  {
    if regions != [] {
      CountAtMostLength(regions[1..], p);
    }
  }
}
