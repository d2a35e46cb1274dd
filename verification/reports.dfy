/**
 * The three reporters of main/main.go, returning the lines they print instead
 * of printing them. A Go map is iterated in an unspecified order; that order
 * is a parameter here, constrained only to list every key exactly once.
 */
module Reports {
  import opened Results
  import opened MapSums
  import opened CompositeKey
  import opened LineParser
  import opened Aggregator
  import opened Ranking

  /** `order` lists every element of `keys` exactly once. */
  predicate EnumeratesKeys(order: seq<string>, keys: set<string>) {
    && (forall i :: 0 <= i < |order| ==> order[i] in keys)
    && (forall k :: k in keys ==> k in order)
    && (forall i, j :: 0 <= i < j < |order| ==> order[i] != order[j])
  }

  datatype CandidateLine = CandidateLine(candidate: string, votes: int)
  datatype DepartmentLine = DepartmentLine(department: string, candidate: string, votes: int)
  datatype RankLine = RankLine(rank: int, department: string)

  /** `printVotesByCandidate`: one line per entry. */
  function CandidateReport(totals: map<string, int>, order: seq<string>): seq<CandidateLine>
    requires forall i :: 0 <= i < |order| ==> order[i] in totals
  {
    seq(|order|, i requires 0 <= i < |order| => CandidateLine(order[i], totals[order[i]]))
  }

  /**
   * `printVotesByCandidateByDepartment`: each key is split on `_` and pieces 0
   * and 1 are printed as candidate and department. A key without `_` makes
   * Go panic on index 1 of a one-element slice.
   */
  function DepartmentReport(totals: map<string, int>, order: seq<string>): Result<seq<DepartmentLine>, Panic>
    requires forall i :: 0 <= i < |order| ==> order[i] in totals
    decreases |order|
  {
    if |order| == 0 then Success([])
    else
      match SplitKey(order[0])
      case None => Failure(IndexOutOfRange(1, 1))
      case Some(parts) =>
        match DepartmentReport(totals, order[1..])
        case Failure(e) => Failure(e)
        case Success(rest) =>
          Success([DepartmentLine(parts.department, parts.candidate, totals[order[0]])] + rest)
  }

  /** `printRankingByDepartment`: departments by decreasing total, numbered from 1. */
  function RankingReport(totals: map<string, int>, order: seq<string>): seq<RankLine> {
    var ranked := SortByTotal(order, totals);
    seq(|ranked|, i requires 0 <= i < |ranked| => RankLine(i + 1, ranked[i]))
  }

  /** The departments of a ranking, in rank order. */
  function RankedDepartments(lines: seq<RankLine>): seq<string> {
    seq(|lines|, i requires 0 <= i < |lines| => lines[i].department)
  }

  /** Each printed candidate line holds that candidate's votes summed over all lines of the file. */
  lemma CandidateReportTotals(votes: seq<Vote>, order: seq<string>)
    requires EnumeratesKeys(order, Accumulate(votes).byCandidate.Keys)
    ensures |CandidateReport(Accumulate(votes).byCandidate, order)| == |order|
    ensures forall i :: 0 <= i < |order| ==>
      && CandidateReport(Accumulate(votes).byCandidate, order)[i].candidate == order[i]
      && CandidateReport(Accumulate(votes).byCandidate, order)[i].votes == CandidateTotalOf(votes, order[i])
  {
    CandidateTotals(votes);
  }

  /** When every key splits, the report has one line per key, with the key's two pieces. */
  lemma {:induction false} DepartmentReportLines(totals: map<string, int>, order: seq<string>)
    requires forall i :: 0 <= i < |order| ==> order[i] in totals && SplitKey(order[i]).Some?
    ensures DepartmentReport(totals, order).Success?
    ensures |DepartmentReport(totals, order).value| == |order|
    ensures forall i :: 0 <= i < |order| ==>
      DepartmentReport(totals, order).value[i] == DepartmentLine(
        SplitKey(order[i]).value.department, SplitKey(order[i]).value.candidate, totals[order[i]])
    decreases |order|
  {
    if |order| > 0 {
      DepartmentReportLines(totals, order[1..]);
      var rest := DepartmentReport(totals, order[1..]).value;
      var r := DepartmentReport(totals, order).value;
      forall i | 0 < i < |order|
        ensures r[i] == rest[i - 1]
      {
      }
    }
  }

  /**
   * The per-candidate-per-department report never panics on the totals the
   * loop builds; with `_`-free names and departments each printed line
   * names a candidate and a department whose key is the entry printed and
   * whose votes, summed again from the file's lines, are the votes printed.
   */
  lemma DepartmentReportRoundTrip(votes: seq<Vote>, order: seq<string>)
    requires forall i :: 0 <= i < |order| ==> order[i] in Accumulate(votes).byCandidateDepartment
    ensures DepartmentReport(Accumulate(votes).byCandidateDepartment, order).Success?
    ensures |DepartmentReport(Accumulate(votes).byCandidateDepartment, order).value| == |order|
    ensures SeparatorFree(votes) ==>
      forall i :: 0 <= i < |order| ==>
        var line := DepartmentReport(Accumulate(votes).byCandidateDepartment, order).value[i];
        && Key(line.candidate, line.department) == order[i]
        && line.votes == CandidateDepartmentTotalOf(votes, line.candidate, line.department)
  {
    var totals := Accumulate(votes).byCandidateDepartment;
    KeysAreBuilt(votes);
    forall i | 0 <= i < |order|
      ensures SplitKey(order[i]).Some?
    {
      var j :| 0 <= j < |votes| && KeyOfLine(votes[j], order[i]);
      KeyAlwaysSplits(CandidateOf(order[i], votes[j].department), votes[j].department);
    }
    DepartmentReportLines(totals, order);
    if SeparatorFree(votes) {
      KeysRoundTrip(votes);
    }
  }

  /** A sequence without repeats has as many elements as its set of elements. */
  lemma {:induction false} DistinctCardinality(s: seq<string>)
    requires forall i, j :: 0 <= i < j < |s| ==> s[i] != s[j]
    ensures |set x | x in s| == |s|
    ensures forall x :: x in s ==> multiset(s)[x] == 1
    decreases |s|
  {
    if |s| > 0 {
      var rest := s[1..];
      DistinctCardinality(rest);
      assert s == [s[0]] + rest;
      assert s[0] !in rest;
      assert (set x | x in s) == (set x | x in rest) + {s[0]};
    }
  }

  /** The ranking's departments are the enumeration sorted by total. */
  lemma RankedIsSorted(totals: map<string, int>, order: seq<string>)
    ensures RankedDepartments(RankingReport(totals, order)) == SortByTotal(order, totals)
  {
  }

  /** Sorting an enumeration of the departments keeps each department exactly once. */
  lemma SortedEnumeration(totals: map<string, int>, order: seq<string>)
    requires EnumeratesKeys(order, totals.Keys)
    ensures |SortByTotal(order, totals)| == |totals|
    ensures forall d :: d in totals <==> d in SortByTotal(order, totals)
    ensures forall d :: d in totals ==> multiset(SortByTotal(order, totals))[d] == 1
  {
    var ranked := SortByTotal(order, totals);
    SortPermutation(order, totals);
    DistinctCardinality(order);
    assert (set x | x in order) == totals.Keys;
    forall d
      ensures d in totals <==> d in ranked
    {
      assert d in ranked <==> d in multiset(ranked);
      assert d in order <==> d in multiset(order);
    }
    assert |ranked| == |multiset(ranked)| == |multiset(order)| == |order|;
  }

  /**
   * The ranking lists every department exactly once, numbered 1, 2, ... in
   * order, never puts a lower total before a higher one, and keeps
   * departments with equal totals in the order they were enumerated.
   */
  lemma RankingReportOrder(totals: map<string, int>, order: seq<string>)
    requires EnumeratesKeys(order, totals.Keys)
    ensures |RankingReport(totals, order)| == |totals|
    ensures forall i :: 0 <= i < |RankingReport(totals, order)| ==> RankingReport(totals, order)[i].rank == i + 1
    ensures forall d :: d in totals <==> d in RankedDepartments(RankingReport(totals, order))
    ensures forall d :: d in totals ==> multiset(RankedDepartments(RankingReport(totals, order)))[d] == 1
    ensures forall i, j :: 0 <= i < j < |RankingReport(totals, order)| ==>
      Get(totals, RankingReport(totals, order)[i].department) >= Get(totals, RankingReport(totals, order)[j].department)
    ensures forall v :: WithTotal(RankedDepartments(RankingReport(totals, order)), totals, v) == WithTotal(order, totals, v)
  {
    RankedIsSorted(totals, order);
    SortedEnumeration(totals, order);
    SortSorted(order, totals);
    forall v
      ensures WithTotal(SortByTotal(order, totals), totals, v) == WithTotal(order, totals, v)
    {
      SortStable(order, totals, v);
    }
  }
}
