/**
 * The ingestion loop of `main` (main/main.go:29-54): the header line is
 * skipped and every later line is decoded and added into four accumulators.
 */
module Aggregator {
  import opened Results
  import opened MapSums
  import opened CompositeKey
  import opened LineParser
  import Strings

  /** The four accumulators of `main`. */
  datatype Tally = Tally(
    totalVotes: int,
    byCandidate: map<string, int>,
    byCandidateDepartment: map<string, int>,
    byDepartment: map<string, int>)

  const Empty := Tally(0, map[], map[], map[])

  /** A panic while decoding the line at position `line` of the file (the header is 0). */
  datatype LineFailure = LineFailure(line: nat, panic: Panic)

  /**
   * The effect of one line on the accumulators, independent of the order in
   * which the line's candidates are visited.
   */
  function AddLine(t: Tally, v: Vote): Tally {
    Tally(
      t.totalVotes + v.nbVote,
      MergeAdd(t.byCandidate, v.candidates),
      MergeAdd(t.byCandidateDepartment, KeyedByDepartment(v.candidates, v.department)),
      AddTo(t.byDepartment, v.department, v.nbVote))
  }

  /**
   * One line adds each candidate's count to that candidate and to its key in
   * the line's department, and the line total to the department and the
   * global total; every other entry is left as it was.
   */
  lemma LineFrame(t: Tally, v: Vote)
    ensures AddLine(t, v).totalVotes == t.totalVotes + v.nbVote
    ensures AddLine(t, v).byCandidate.Keys == t.byCandidate.Keys + v.candidates.Keys
    ensures forall c :: Get(AddLine(t, v).byCandidate, c) == Get(t.byCandidate, c) + Get(v.candidates, c)
    ensures forall c :: c in v.candidates ==>
      && Key(c, v.department) in AddLine(t, v).byCandidateDepartment
      && AddLine(t, v).byCandidateDepartment[Key(c, v.department)]
           == Get(t.byCandidateDepartment, Key(c, v.department)) + v.candidates[c]
    ensures forall k :: (forall c :: c in v.candidates ==> k != Key(c, v.department)) ==>
      && (k in AddLine(t, v).byCandidateDepartment <==> k in t.byCandidateDepartment)
      && Get(AddLine(t, v).byCandidateDepartment, k) == Get(t.byCandidateDepartment, k)
    ensures AddLine(t, v).byDepartment.Keys == t.byDepartment.Keys + {v.department}
    ensures Get(AddLine(t, v).byDepartment, v.department) == Get(t.byDepartment, v.department) + v.nbVote
    ensures forall d :: d != v.department ==> Get(AddLine(t, v).byDepartment, d) == Get(t.byDepartment, d)
  {
    var keyed := KeyedByDepartment(v.candidates, v.department);
    MergeAddEntries(t.byCandidate, v.candidates);
    MergeAddEntries(t.byCandidateDepartment, keyed);
    KeyedEntries(v.candidates, v.department);
    AddToEntries(t.byDepartment, v.department, v.nbVote);
  }

  /** One line adds the same amount to both candidate views and its total to the department view. */
  lemma LineSums(t: Tally, v: Vote)
    ensures Sum(AddLine(t, v).byCandidate) == Sum(t.byCandidate) + Sum(v.candidates)
    ensures Sum(AddLine(t, v).byCandidateDepartment) == Sum(t.byCandidateDepartment) + Sum(v.candidates)
    ensures Sum(AddLine(t, v).byDepartment) == Sum(t.byDepartment) + v.nbVote
  {
    SumMergeAdd(t.byCandidate, v.candidates);
    SumMergeAdd(t.byCandidateDepartment, KeyedByDepartment(v.candidates, v.department));
    SumKeyed(v.candidates, v.department);
    SumAddTo(t.byDepartment, v.department, v.nbVote);
  }

  /**
   * The loop body of `main`: the inner loop over the line's candidates, then
   * the department and global totals.
   */
  method ApplyLine(t: Tally, v: Vote) returns (r: Tally)
    ensures r == AddLine(t, v)
  {
    var byCandidate, byCandidateDepartment := VisitCandidates(t, v);
    r := Tally(
      t.totalVotes + v.nbVote,
      byCandidate,
      byCandidateDepartment,
      AddTo(t.byDepartment, v.department, v.nbVote));
  }

  /**
   * Lines 47-51 of `main`: `range` over the line's candidates visits them in
   * an unspecified order (each pick below is arbitrary), and the result is
   * always the order-independent merge of `AddLine`.
   */
  method VisitCandidates(t: Tally, v: Vote) returns (byCandidate: map<string, int>, byCandidateDepartment: map<string, int>)
    ensures byCandidate == MergeAdd(t.byCandidate, v.candidates)
    ensures byCandidateDepartment ==
      MergeAdd(t.byCandidateDepartment, KeyedByDepartment(v.candidates, v.department))
  {
    byCandidate := t.byCandidate;
    byCandidateDepartment := t.byCandidateDepartment;
    var remaining := v.candidates.Keys;
    NothingVisited(t, v);
    while remaining != {}
      invariant remaining <= v.candidates.Keys
      invariant byCandidate == MergeAdd(t.byCandidate, v.candidates - remaining)
      invariant byCandidateDepartment ==
        MergeAdd(t.byCandidateDepartment, KeyedByDepartment(v.candidates - remaining, v.department))
      decreases remaining
    {
      var c :| c in remaining;
      var count := v.candidates[c];
      VisitOne(t, v, remaining, c);
      byCandidateDepartment := AddTo(byCandidateDepartment, Key(c, v.department), count);
      byCandidate := AddTo(byCandidate, c, count);
      remaining := remaining - {c};
    }
    assert v.candidates - remaining == v.candidates;
  }

  /** Before any candidate is visited the accumulators are as they were. */
  lemma NothingVisited(t: Tally, v: Vote)
    ensures t.byCandidate == MergeAdd(t.byCandidate, v.candidates - v.candidates.Keys)
    ensures t.byCandidateDepartment
         == MergeAdd(t.byCandidateDepartment, KeyedByDepartment(v.candidates - v.candidates.Keys, v.department))
  {
    assert v.candidates - v.candidates.Keys == map[];
    assert KeyedByDepartment(map[], v.department) == map[];
  }

  /** Visiting candidate `c` moves it from the remaining keys to the merged ones. */
  lemma VisitOne(t: Tally, v: Vote, remaining: set<string>, c: string)
    requires remaining <= v.candidates.Keys && c in remaining
    ensures v.candidates - (remaining - {c}) == (v.candidates - remaining)[c := v.candidates[c]]
    ensures MergeAdd(t.byCandidate, v.candidates - (remaining - {c}))
         == AddTo(MergeAdd(t.byCandidate, v.candidates - remaining), c, v.candidates[c])
    ensures MergeAdd(t.byCandidateDepartment, KeyedByDepartment(v.candidates - (remaining - {c}), v.department))
         == AddTo(MergeAdd(t.byCandidateDepartment, KeyedByDepartment(v.candidates - remaining, v.department)),
                  Key(c, v.department), v.candidates[c])
  {
    var done, count := v.candidates - remaining, v.candidates[c];
    assert c !in done;
    assert v.candidates - (remaining - {c}) == done[c := count];
    MergeAddInsert(t.byCandidate, done, c, count);
    KeyedInsert(done, c, count, v.department);
    MergeAddInsert(t.byCandidateDepartment, KeyedByDepartment(done, v.department), Key(c, v.department), count);
  }

  /** The accumulators after the given decoded lines, in file order. */
  function Accumulate(votes: seq<Vote>): Tally
    decreases |votes|
  {
    if |votes| == 0 then Empty
    else AddLine(Accumulate(votes[..|votes| - 1]), votes[|votes| - 1])
  }

  /** Decodes the lines in order, stopping at the first one that panics. */
  function ParseAll(lines: seq<string>): Result<seq<Vote>, LineFailure>
    decreases |lines|
  {
    if |lines| == 0 then Success([])
    else
      match ParseAll(lines[..|lines| - 1])
      case Failure(e) => Failure(e)
      case Success(votes) =>
        match ParseLine(lines[|lines| - 1])
        case Failure(p) => Failure(LineFailure(|lines| - 1, p))
        case Success(v) => Success(votes + [v])
  }

  /**
   * The whole ingestion: the first line is the header and is never decoded;
   * a panic on any later line aborts the program before anything is reported.
   */
  function Ingest(lines: seq<string>): Result<Tally, LineFailure> {
    if |lines| == 0 then Success(Empty)
    else
      match ParseAll(lines[1..])
      case Failure(e) => Failure(LineFailure(e.line + 1, e.panic))
      case Success(votes) => Success(Accumulate(votes))
  }

  /** The header line is never looked at: any two headers give the same outcome. */
  lemma IngestIgnoresHeader(header1: string, header2: string, body: seq<string>)
    ensures Ingest([header1] + body) == Ingest([header2] + body)
    ensures Ingest([header1] + body).Failure? ==> Ingest([header1] + body).error.line >= 1
  {
    assert ([header1] + body)[1..] == body;
    assert ([header2] + body)[1..] == body;
  }

  /**
   * A file whose only data line has 25 fields aborts on that line: the loop of
   * `parseCandidates` as written reads past its end.
   */
  lemma TwentyFiveFieldFileAborts(header: string, line: string)
    requires Strings.Occurrences(line, FieldSeparator) == CountIndex(0) - 1
    ensures Ingest([header, line]) == Failure(LineFailure(1, IndexOutOfRange(CountIndex(0), CountIndex(0))))
  {
    TwentyFiveFieldLinePanics(line);
    assert [header, line][1..] == [line];
    assert [line][..0] == [];
    assert ParseAll([line]) == Failure(LineFailure(0, IndexOutOfRange(CountIndex(0), CountIndex(0))));
  }

  /** Once a prefix of the lines fails, so do all longer inputs, with the same failure. */
  lemma {:induction false} ParseAllFailureSticks(lines: seq<string>, n: nat)
    requires n <= |lines|
    requires ParseAll(lines[..n]).Failure?
    ensures ParseAll(lines) == ParseAll(lines[..n])
    decreases |lines| - n
  {
    if n < |lines| {
      assert lines[..n + 1][..n] == lines[..n];
      ParseAllFailureSticks(lines, n + 1);
    } else {
      assert lines[..n] == lines;
    }
  }

  /** Decoding one more line that parses extends the decoded prefix. */
  lemma ParseAllExtends(lines: seq<string>, n: nat, votes: seq<Vote>, v: Vote)
    requires n < |lines|
    requires ParseAll(lines[..n]) == Success(votes)
    requires ParseLine(lines[n]) == Success(v)
    ensures ParseAll(lines[..n + 1]) == Success(votes + [v])
  {
    assert lines[..n + 1][..n] == lines[..n];
  }

  /** Decoding one more line that panics stops the decoding at that line. */
  lemma ParseAllStops(lines: seq<string>, n: nat, votes: seq<Vote>, p: Panic)
    requires n < |lines|
    requires ParseAll(lines[..n]) == Success(votes)
    requires ParseLine(lines[n]) == Failure(p)
    ensures ParseAll(lines) == Failure(LineFailure(n, p))
  {
    assert lines[..n + 1][..n] == lines[..n];
    ParseAllFailureSticks(lines, n + 1);
  }

  /** Decoding the line after a decoded prefix of the body either extends the prefix or ends the ingestion. */
  lemma IngestStep(lines: seq<string>, i: nat, votes: seq<Vote>)
    requires 1 <= i < |lines|
    requires ParseAll(lines[1..i]) == Success(votes)
    ensures ParseLine(lines[i]).Success? ==> ParseAll(lines[1..i + 1]) == Success(votes + [ParseLine(lines[i]).value])
    ensures ParseLine(lines[i]).Failure? ==> Ingest(lines) == Failure(LineFailure(i, ParseLine(lines[i]).error))
  {
    var body := lines[1..];
    assert body[..i - 1] == lines[1..i];
    assert body[..i] == lines[1..i + 1];
    assert body[i - 1] == lines[i];
    if ParseLine(lines[i]).Success? {
      ParseAllExtends(body, i - 1, votes, ParseLine(lines[i]).value);
    } else {
      ParseAllStops(body, i - 1, votes, ParseLine(lines[i]).error);
    }
  }

  /** `main`'s loop over the file, line by line, with its `firstLine` flag. */
  method Run(lines: seq<string>) returns (r: Result<Tally, LineFailure>)
    ensures r == Ingest(lines)
  {
    var t := Empty;
    var firstLine := true;
    ghost var votes: seq<Vote> := [];
    var i := 0;
    while i < |lines|
      invariant 0 <= i <= |lines|
      invariant firstLine <==> i == 0
      invariant i == 0 ==> votes == []
      invariant i > 0 ==> ParseAll(lines[1..i]) == Success(votes)
      invariant t == Accumulate(votes)
    {
      if firstLine {
        firstLine := false;
        i := i + 1;
        assert lines[1..i] == [];
        continue;
      }
      var parsed := ParseLine(lines[i]);
      IngestStep(lines, i, votes);
      if parsed.Failure? {
        return Failure(LineFailure(i, parsed.error));
      }
      t := ApplyLine(t, parsed.value);
      ghost var previous := votes;
      votes := votes + [parsed.value];
      assert votes[..|votes| - 1] == previous;
      i := i + 1;
    }
    if i > 0 {
      assert lines[1..i] == lines[1..];
    }
    r := Success(t);
  }

  /** The sum of the line totals. */
  function TotalOf(votes: seq<Vote>): int
    decreases |votes|
  {
    if |votes| == 0 then 0
    else TotalOf(votes[..|votes| - 1]) + votes[|votes| - 1].nbVote
  }

  /** The sum of a candidate's counts over the lines that list it. */
  function CandidateTotalOf(votes: seq<Vote>, c: string): int
    decreases |votes|
  {
    if |votes| == 0 then 0
    else CandidateTotalOf(votes[..|votes| - 1], c) + Get(votes[|votes| - 1].candidates, c)
  }

  /** The sum of the line totals of one department. */
  function DepartmentTotalOf(votes: seq<Vote>, d: string): int
    decreases |votes|
  {
    if |votes| == 0 then 0
    else
      var v := votes[|votes| - 1];
      DepartmentTotalOf(votes[..|votes| - 1], d) + (if v.department == d then v.nbVote else 0)
  }

  /** The sum of a candidate's counts over the lines of one department. */
  function CandidateDepartmentTotalOf(votes: seq<Vote>, c: string, d: string): int
    decreases |votes|
  {
    if |votes| == 0 then 0
    else
      var v := votes[|votes| - 1];
      CandidateDepartmentTotalOf(votes[..|votes| - 1], c, d)
        + (if v.department == d then Get(v.candidates, c) else 0)
  }

  /** No department and no candidate name of any line contains the key separator. */
  predicate SeparatorFree(votes: seq<Vote>) {
    forall i :: 0 <= i < |votes| ==>
      && KeySeparator !in votes[i].department
      && forall c :: c in votes[i].candidates ==> KeySeparator !in c
  }

  /** The global total is the sum of the line totals. */
  lemma {:induction false} TotalIsSumOfLines(votes: seq<Vote>)
    ensures Accumulate(votes).totalVotes == TotalOf(votes)
    decreases |votes|
  {
    if |votes| > 0 {
      TotalIsSumOfLines(votes[..|votes| - 1]);
    }
  }

  /** The department totals always add up to the global total. */
  lemma {:induction false} DepartmentsAddUpToTotal(votes: seq<Vote>)
    ensures Sum(Accumulate(votes).byDepartment) == Accumulate(votes).totalVotes
    decreases |votes|
  {
    if |votes| > 0 {
      DepartmentsAddUpToTotal(votes[..|votes| - 1]);
      LineSums(Accumulate(votes[..|votes| - 1]), votes[|votes| - 1]);
    } else {
      assert Sum(map[]) == 0;
    }
  }

  /** The per-candidate and per-candidate-per-department totals hold the same number of votes. */
  lemma {:induction false} CandidateViewsAgree(votes: seq<Vote>)
    ensures Sum(Accumulate(votes).byCandidate) == Sum(Accumulate(votes).byCandidateDepartment)
    decreases |votes|
  {
    if |votes| > 0 {
      CandidateViewsAgree(votes[..|votes| - 1]);
      LineSums(Accumulate(votes[..|votes| - 1]), votes[|votes| - 1]);
    }
  }

  /** A candidate's total is the sum of its counts over all lines. */
  lemma {:induction false} CandidateTotals(votes: seq<Vote>)
    ensures forall c :: Get(Accumulate(votes).byCandidate, c) == CandidateTotalOf(votes, c)
    decreases |votes|
  {
    if |votes| > 0 {
      var prefix, v := votes[..|votes| - 1], votes[|votes| - 1];
      CandidateTotals(prefix);
      MergeAddEntries(Accumulate(prefix).byCandidate, v.candidates);
    }
  }

  /** A candidate is present exactly when some line lists it with a count that parsed. */
  lemma {:induction false} CandidatePresence(votes: seq<Vote>)
    ensures forall c :: c in Accumulate(votes).byCandidate <==>
      exists i :: 0 <= i < |votes| && c in votes[i].candidates
    decreases |votes|
  {
    if |votes| > 0 {
      var prefix, v := votes[..|votes| - 1], votes[|votes| - 1];
      CandidatePresence(prefix);
      MergeAddEntries(Accumulate(prefix).byCandidate, v.candidates);
      forall c
        ensures c in Accumulate(votes).byCandidate <==>
          exists i :: 0 <= i < |votes| && c in votes[i].candidates
      {
        ListedLast(votes, prefix, c);
      }
    }
  }

  /** A name is listed by some line exactly when it is listed before the last line or by it. */
  lemma ListedLast(votes: seq<Vote>, prefix: seq<Vote>, c: string)
    requires |votes| > 0 && prefix == votes[..|votes| - 1]
    ensures (exists i :: 0 <= i < |votes| && c in votes[i].candidates) <==>
      (exists i :: 0 <= i < |prefix| && c in prefix[i].candidates) || c in votes[|votes| - 1].candidates
  {
    if exists i :: 0 <= i < |votes| && c in votes[i].candidates {
      var i :| 0 <= i < |votes| && c in votes[i].candidates;
      if i < |votes| - 1 {
        assert c in prefix[i].candidates;
      }
    }
  }

  /** A department's total is the sum of the totals of its lines. */
  lemma {:induction false} DepartmentTotals(votes: seq<Vote>)
    ensures forall d :: Get(Accumulate(votes).byDepartment, d) == DepartmentTotalOf(votes, d)
    decreases |votes|
  {
    if |votes| > 0 {
      var prefix, v := votes[..|votes| - 1], votes[|votes| - 1];
      DepartmentTotals(prefix);
      AddToEntries(Accumulate(prefix).byDepartment, v.department, v.nbVote);
    }
  }

  /** A department is present exactly when some line belongs to it, even with a total of 0. */
  lemma {:induction false} DepartmentPresence(votes: seq<Vote>)
    ensures forall d :: d in Accumulate(votes).byDepartment <==>
      exists i :: 0 <= i < |votes| && votes[i].department == d
    decreases |votes|
  {
    if |votes| > 0 {
      var prefix, v := votes[..|votes| - 1], votes[|votes| - 1];
      DepartmentPresence(prefix);
      AddToEntries(Accumulate(prefix).byDepartment, v.department, v.nbVote);
      forall d
        ensures d in Accumulate(votes).byDepartment <==>
          exists i :: 0 <= i < |votes| && votes[i].department == d
      {
        BelongsLast(votes, prefix, d);
      }
    }
  }

  /** Some line belongs to `d` exactly when one before the last does or the last does. */
  lemma BelongsLast(votes: seq<Vote>, prefix: seq<Vote>, d: string)
    requires |votes| > 0 && prefix == votes[..|votes| - 1]
    ensures (exists i :: 0 <= i < |votes| && votes[i].department == d) <==>
      (exists i :: 0 <= i < |prefix| && prefix[i].department == d) || votes[|votes| - 1].department == d
  {
    if exists i :: 0 <= i < |votes| && votes[i].department == d {
      var i :| 0 <= i < |votes| && votes[i].department == d;
      if i < |votes| - 1 {
        assert prefix[i].department == d;
      }
    }
  }

  /** A key present after one line was present before it or is the key of one of the line's candidates. */
  lemma KeyAfterLine(t: Tally, v: Vote, k: string)
    requires k in AddLine(t, v).byCandidateDepartment
    ensures k in t.byCandidateDepartment || KeyOfLine(v, k)
  {
    var keyed := KeyedByDepartment(v.candidates, v.department);
    MergeAddEntries(t.byCandidateDepartment, keyed);
    KeyedEntries(v.candidates, v.department);
    assert k in t.byCandidateDepartment || k in keyed;
  }

  /** Every key of the per-candidate-per-department totals was built by `Key`. */
  lemma KeysAreBuilt(votes: seq<Vote>)
    ensures forall k :: k in Accumulate(votes).byCandidateDepartment ==>
      exists i :: 0 <= i < |votes| && KeyOfLine(votes[i], k)
  {
    forall k | k in Accumulate(votes).byCandidateDepartment
      ensures exists i :: 0 <= i < |votes| && KeyOfLine(votes[i], k)
    {
      var i := KeyBuilder(votes, k);
    }
  }

  /** The last line whose candidates give key `k`. */
  lemma {:induction false} KeyBuilder(votes: seq<Vote>, k: string) returns (i: nat)
    requires k in Accumulate(votes).byCandidateDepartment
    ensures i < |votes| && KeyOfLine(votes[i], k)
    decreases |votes|
  {
    var prefix, v := votes[..|votes| - 1], votes[|votes| - 1];
    assert Accumulate(votes) == AddLine(Accumulate(prefix), v);
    KeyAfterLine(Accumulate(prefix), v, k);
    if KeyOfLine(v, k) {
      i := |votes| - 1;
    } else {
      i := KeyBuilder(prefix, k);
      assert votes[i] == prefix[i];
    }
  }

  /** `k` is the key of one of the candidates of line `v`. */
  predicate KeyOfLine(v: Vote, k: string) {
    CandidateOf(k, v.department) in v.candidates && k == Key(CandidateOf(k, v.department), v.department)
  }

  /** Within separator-free data, a line's keyed counts only hold its own department's keys. */
  lemma KeyedAt(counts: map<string, int>, lineDepartment: string, c: string, d: string)
    requires KeySeparator !in lineDepartment && KeySeparator !in c && KeySeparator !in d
    requires forall c' :: c' in counts ==> KeySeparator !in c'
    ensures Get(KeyedByDepartment(counts, lineDepartment), Key(c, d))
         == if lineDepartment == d then Get(counts, c) else 0
  {
    KeyedEntries(counts, lineDepartment);
    var k := Key(c, d);
    if k in KeyedByDepartment(counts, lineDepartment) {
      var c' := CandidateOf(k, lineDepartment);
      KeyInjectiveClean(c, d, c', lineDepartment);
    }
  }

  /**
   * With separator-free names and departments, the key of a candidate and a
   * department holds that candidate's votes in that department.
   */
  lemma {:induction false} CandidateDepartmentTotals(votes: seq<Vote>)
    requires SeparatorFree(votes)
    ensures forall c, d :: KeySeparator !in c && KeySeparator !in d ==>
      Get(Accumulate(votes).byCandidateDepartment, Key(c, d)) == CandidateDepartmentTotalOf(votes, c, d)
    decreases |votes|
  {
    if |votes| > 0 {
      var prefix, v := votes[..|votes| - 1], votes[|votes| - 1];
      assert SeparatorFree(prefix) by {
        forall i | 0 <= i < |prefix|
          ensures prefix[i] == votes[i]
        {
        }
      }
      CandidateDepartmentTotals(prefix);
      var keyed := KeyedByDepartment(v.candidates, v.department);
      MergeAddEntries(Accumulate(prefix).byCandidateDepartment, keyed);
      forall c, d | KeySeparator !in c && KeySeparator !in d
        ensures Get(Accumulate(votes).byCandidateDepartment, Key(c, d)) == CandidateDepartmentTotalOf(votes, c, d)
      {
        assert votes[|votes| - 1] == v;
        KeyedAt(v.candidates, v.department, c, d);
      }
    }
  }

  /**
   * With separator-free names and departments, splitting any key of the
   * per-candidate-per-department totals gives back a candidate and a
   * department whose votes, added up again from the lines, are that entry.
   */
  lemma KeysRoundTrip(votes: seq<Vote>)
    requires SeparatorFree(votes)
    ensures forall k :: k in Accumulate(votes).byCandidateDepartment ==>
      && SplitKey(k).Some?
      && k == Key(SplitKey(k).value.candidate, SplitKey(k).value.department)
      && Accumulate(votes).byCandidateDepartment[k]
           == CandidateDepartmentTotalOf(votes, SplitKey(k).value.candidate, SplitKey(k).value.department)
  {
    KeysAreBuilt(votes);
    CandidateDepartmentTotals(votes);
    forall k | k in Accumulate(votes).byCandidateDepartment
      ensures && SplitKey(k).Some?
              && k == Key(SplitKey(k).value.candidate, SplitKey(k).value.department)
    {
      var i :| 0 <= i < |votes| && KeyOfLine(votes[i], k);
      var c, d := CandidateOf(k, votes[i].department), votes[i].department;
      KeyRoundTrip(c, d);
    }
  }
}
