/**
 * Decoding of one line of the results file into a `Vote`
 * (`createEntryFromString` and `parseCandidates` in main/main.go).
 *
 * A line is split on `;`. Field 1 is the department, field 10 the number of
 * votes cast, and from field 23 on the fields repeat in groups of 7: the
 * candidate's name is the first field of a group and the candidate's count
 * the third.
 */
module LineParser {
  import opened Results
  import Strings
  import opened Decimal

  const FieldSeparator: char := ';'
  const DepartmentField: nat := 1
  const TotalField: nat := 10
  const CandidateStart: nat := 23
  const CandidateStride: nat := 7
  const CountOffset: nat := 2

  /** The decoded line: the `Vote` struct of the program. */
  datatype Vote = Vote(candidates: map<string, int>, department: string, nbVote: int)

  /** Go's run-time panic for `fields[index]` on a slice of `length` elements. */
  datatype Panic = IndexOutOfRange(index: nat, length: nat)

  /** Position of the name of the `k`-th candidate group. */
  function NameIndex(k: nat): nat {
    CandidateStart + CandidateStride * k
  }

  /** Position of the count of the `k`-th candidate group. */
  function CountIndex(k: nat): nat {
    NameIndex(k) + CountOffset
  }

  /**
   * The number of candidate groups whose count field lies inside a line of
   * `n` fields: the first group that does not fit is group `g`.
   */
  function GroupCount(n: nat): (g: nat)
    ensures n <= CountIndex(g)
    ensures g == 0 || CountIndex(g - 1) < n
    decreases n
  {
    if n <= CountIndex(0) then 0
    else GroupCount(n - CandidateStride) + 1
  }

  /** Group `k` is complete, is named `c`, and its count field parses. */
  predicate GroupParses(fields: seq<string>, k: nat, c: string) {
    && CountIndex(k) < |fields|
    && fields[NameIndex(k)] == c
    && Atoi(fields[CountIndex(k)]).Some?
  }

  /** `candidates[name] = count` when the count parses; the map is unchanged otherwise. */
  function Record(acc: map<string, int>, name: string, countText: string): map<string, int> {
    match Atoi(countText)
    case Some(v) => acc[name := v]
    case None => acc
  }

  /**
   * The last of the first `n` groups that names `c` with a count that parses,
   * found by scanning backwards.
   */
  function LastGroup(fields: seq<string>, n: nat, c: string): (r: Option<nat>)
    requires n <= GroupCount(|fields|)
    ensures r.Some? ==> && r.value < n && GroupParses(fields, r.value, c)
                        && forall j: nat :: r.value < j < n ==> !GroupParses(fields, j, c)
    ensures r.None? ==> forall j: nat :: j < n ==> !GroupParses(fields, j, c)
    decreases n
  {
    if n == 0 then None
    else if GroupParses(fields, n - 1, c) then Some(n - 1)
    else LastGroup(fields, n - 1, c)
  }

  /** The parsed count of group `k`. */
  function GroupCountValue(fields: seq<string>, k: nat): int
    requires CountIndex(k) < |fields| && Atoi(fields[CountIndex(k)]).Some?
  {
    Atoi(fields[CountIndex(k)]).value
  }

  /** The candidates map after the first `n` groups, folding forwards. */
  function CandidatesUpTo(fields: seq<string>, n: nat): map<string, int>
    requires n <= GroupCount(|fields|)
  {
    if n == 0 then map[]
    else Record(CandidatesUpTo(fields, n - 1), fields[NameIndex(n - 1)], fields[CountIndex(n - 1)])
  }

  /**
   * After the first `n` groups a name is present exactly when one of them
   * names it with a count that parses, and its value is the count of the last
   * such group: a repeated name keeps its last parsed count, and a name whose
   * count never parses is absent rather than present with 0.
   */
  lemma {:induction false} CandidatesUpToLast(fields: seq<string>, n: nat)
    requires n <= GroupCount(|fields|)
    ensures forall c :: c in CandidatesUpTo(fields, n) <==> LastGroup(fields, n, c).Some?
    ensures forall c :: c in CandidatesUpTo(fields, n) ==>
      CandidatesUpTo(fields, n)[c] == GroupCountValue(fields, LastGroup(fields, n, c).value)
    decreases n
  {
    if n > 0 {
      CandidatesUpToLast(fields, n - 1);
      var m, r := CandidatesUpTo(fields, n - 1), CandidatesUpTo(fields, n);
      var name, text := fields[NameIndex(n - 1)], fields[CountIndex(n - 1)];
      forall c
        ensures c in r <==> LastGroup(fields, n, c).Some?
        ensures c in r ==> r[c] == GroupCountValue(fields, LastGroup(fields, n, c).value)
      {
        if GroupParses(fields, n - 1, c) {
          assert LastGroup(fields, n, c) == Some(n - 1);
          assert r == m[name := Atoi(text).value];
        } else {
          assert LastGroup(fields, n, c) == LastGroup(fields, n - 1, c);
          assert c in r <==> c in m;
          assert c in r ==> r[c] == m[c];
        }
      }
    }
  }

  /** The candidates map of a whole line. */
  function Candidates(fields: seq<string>): map<string, int> {
    CandidatesUpTo(fields, GroupCount(|fields|))
  }

  /**
   * `parseCandidates` with the bound check the extraction needs: the loop stops
   * as soon as the count field of the current group would lie past the end.
   */
  method ParseCandidates(fields: seq<string>) returns (candidates: map<string, int>)
    ensures candidates == Candidates(fields)
  {
    candidates := map[];
    var i := CandidateStart;
    ghost var k: nat := 0;
    while i < |fields|
      invariant i == NameIndex(k)
      invariant k <= GroupCount(|fields|)
      invariant candidates == CandidatesUpTo(fields, k)
      invariant i >= |fields| ==> k == GroupCount(|fields|)
      decreases |fields| - i
    {
      if i + CountOffset >= |fields| {
        break;
      }
      candidates := Record(candidates, fields[i], fields[i + CountOffset]);
      i := i + CandidateStride;
      k := k + 1;
    }
  }

  /**
   * `parseCandidates` as written, from field `i` on: the loop guard and the
   * `break` only ensure `i + 1 < |fields|`, yet the count is read at `i + 2`.
   */
  function AsWrittenFrom(fields: seq<string>, i: nat, acc: map<string, int>)
    : Result<map<string, int>, Panic>
    decreases |fields| - i
  {
    if i >= |fields| then Success(acc)
    else if i >= |fields| - 1 then Success(acc)
    else if i + CountOffset >= |fields| then Failure(IndexOutOfRange(i + CountOffset, |fields|))
    else AsWrittenFrom(fields, i + CandidateStride, Record(acc, fields[i], fields[i + CountOffset]))
  }

  function ParseCandidatesAsWritten(fields: seq<string>): Result<map<string, int>, Panic> {
    AsWrittenFrom(fields, CandidateStart, map[])
  }

  /** Whether the loop as written reaches a group whose name is the second-to-last field. */
  predicate EndsOnIncompleteGroup(n: nat) {
    n >= CountIndex(0) && (n - CountIndex(0)) % CandidateStride == 0
  }

  /** What the loop as written returns: a panic at index `len`, or the bounded extraction. */
  function AsWrittenOutcome(fields: seq<string>): Result<map<string, int>, Panic> {
    if NameIndex(GroupCount(|fields|)) + CountOffset == |fields|
    then Failure(IndexOutOfRange(|fields|, |fields|))
    else Success(Candidates(fields))
  }

  lemma {:induction false} AsWrittenFromGroup(fields: seq<string>, k: nat)
    requires k <= GroupCount(|fields|)
    ensures AsWrittenFrom(fields, NameIndex(k), CandidatesUpTo(fields, k)) == AsWrittenOutcome(fields)
    decreases GroupCount(|fields|) - k, 1
  {
    if k < GroupCount(|fields|) {
      AsWrittenFromNext(fields, k);
    } else {
      AsWrittenAtEnd(fields);
    }
  }

  /** A complete group is recorded, and the rest of the loop starts at the next one. */
  lemma {:induction false} AsWrittenFromNext(fields: seq<string>, k: nat)
    requires k < GroupCount(|fields|)
    ensures AsWrittenFrom(fields, NameIndex(k), CandidatesUpTo(fields, k)) == AsWrittenOutcome(fields)
    decreases GroupCount(|fields|) - k, 0
  {
    AsWrittenStep(fields, k);
    AsWrittenFromGroup(fields, k + 1);
  }

  lemma AsWrittenAtEnd(fields: seq<string>)
    ensures AsWrittenFrom(fields, NameIndex(GroupCount(|fields|)), CandidatesUpTo(fields, GroupCount(|fields|)))
         == AsWrittenOutcome(fields)
  {
    AsWrittenLastGroup(fields, CandidatesUpTo(fields, GroupCount(|fields|)));
  }

  /** A complete group is read and recorded, and the loop moves on to the next one. */
  lemma AsWrittenStep(fields: seq<string>, k: nat)
    requires k < GroupCount(|fields|)
    ensures AsWrittenFrom(fields, NameIndex(k), CandidatesUpTo(fields, k))
         == AsWrittenFrom(fields, NameIndex(k + 1), CandidatesUpTo(fields, k + 1))
  {
    var i := NameIndex(k);
    var acc := CandidatesUpTo(fields, k);
    assert Record(acc, fields[i], fields[i + CountOffset]) == CandidatesUpTo(fields, k + 1);
    assert i < |fields| - 1 && i + CountOffset < |fields|;
    assert i + CandidateStride == NameIndex(k + 1);
  }

  /** At the first group that does not fit, the loop as written stops or panics. */
  lemma AsWrittenLastGroup(fields: seq<string>, acc: map<string, int>)
    ensures AsWrittenFrom(fields, NameIndex(GroupCount(|fields|)), acc) ==
      if NameIndex(GroupCount(|fields|)) + CountOffset == |fields|
      then Failure(IndexOutOfRange(|fields|, |fields|))
      else Success(acc)
  {
  }

  lemma IncompleteGroupLength(n: nat)
    ensures NameIndex(GroupCount(n)) + CountOffset == n <==> EndsOnIncompleteGroup(n)
  {
  }

  /**
   * The loop as written panics exactly on lines of 25, 32, 39, ... fields, and
   * otherwise computes the same map as the bounded extraction.
   */
  lemma AsWrittenPanics(fields: seq<string>)
    ensures ParseCandidatesAsWritten(fields).Failure? <==> EndsOnIncompleteGroup(|fields|)
    ensures ParseCandidatesAsWritten(fields).Failure? ==>
      ParseCandidatesAsWritten(fields).error == IndexOutOfRange(|fields|, |fields|)
    ensures ParseCandidatesAsWritten(fields).Success? ==>
      ParseCandidatesAsWritten(fields).value == Candidates(fields)
  {
    AsWrittenFromGroup(fields, 0);
    IncompleteGroupLength(|fields|);
  }

  /** A concrete witness: a line of 25 empty fields crashes the loop as written. */
  lemma AsWrittenCrashesOn25Fields()
    ensures var fields := seq(25, _ => "");
      && ParseCandidatesAsWritten(fields) == Failure(IndexOutOfRange(25, 25))
      && Candidates(fields) == map[]
  {
  }

  /**
   * A line of at most 24 fields yields no candidates, because the loop never
   * reaches a complete group; one of exactly 25 panics as written, while the
   * bounded extraction yields no candidates.
   */
  lemma ShortLineHasNoCandidates(fields: seq<string>)
    requires |fields| <= CountIndex(0)
    ensures |fields| < CountIndex(0) ==> ParseCandidatesAsWritten(fields) == Success(map[])
    ensures |fields| == CountIndex(0) ==> ParseCandidatesAsWritten(fields) == Failure(IndexOutOfRange(|fields|, |fields|))
    ensures Candidates(fields) == map[]
  {
  }

  /**
   * `createEntryFromString`: `parseCandidates` runs first and panics on a line
   * of 25, 32, 39, ... fields; then field 1 is the department and field 10 the
   * total, 0 when it does not parse. Indexing a line with fewer fields panics.
   */
  function CreateEntry(fields: seq<string>): (r: Result<Vote, Panic>)
    ensures r.Failure? <==> |fields| <= TotalField || EndsOnIncompleteGroup(|fields|)
    ensures r.Failure? ==> r.error.length == |fields| <= r.error.index
    ensures r.Failure? && |fields| <= TotalField ==> r.error.index <= TotalField
    ensures r.Failure? && EndsOnIncompleteGroup(|fields|) ==> r.error.index == |fields|
    ensures r.Success? ==> && r.value.department == fields[DepartmentField]
                           && r.value.candidates == Candidates(fields)
                           && (Atoi(fields[TotalField]).Some? ==> r.value.nbVote == Atoi(fields[TotalField]).value)
                           && (Atoi(fields[TotalField]).None? ==> r.value.nbVote == 0)
  {
    AsWrittenPanics(fields);
    match ParseCandidatesAsWritten(fields)
    case Failure(p) => Failure(p)
    case Success(candidates) =>
      if |fields| <= DepartmentField then Failure(IndexOutOfRange(DepartmentField, |fields|))
      else if |fields| <= TotalField then Failure(IndexOutOfRange(TotalField, |fields|))
      else Success(Vote(candidates, fields[DepartmentField], Atoi(fields[TotalField]).GetOr(0)))
  }

  /** Splits a raw line and decodes it. */
  function ParseLine(line: string): (r: Result<Vote, Panic>)
    ensures r.Failure? <==>
      Strings.Occurrences(line, FieldSeparator) < TotalField
      || EndsOnIncompleteGroup(Strings.Occurrences(line, FieldSeparator) + 1)
    ensures EndsOnIncompleteGroup(Strings.Occurrences(line, FieldSeparator) + 1) ==>
      var n := Strings.Occurrences(line, FieldSeparator) + 1;
      r == Failure(IndexOutOfRange(n, n))
    ensures r.Success? ==> FieldSeparator !in r.value.department
    ensures r.Success? && Strings.Occurrences(line, FieldSeparator) < CountIndex(0) ==>
      r.value.candidates == map[]
  {
    var fields := Strings.Split(line, FieldSeparator);
    Strings.SplitCount(line, FieldSeparator);
    assert |fields| == Strings.Occurrences(line, FieldSeparator) + 1;
    if |fields| <= CountIndex(0) then
      ShortLineHasNoCandidates(fields);
      CreateEntry(fields)
    else
      CreateEntry(fields)
  }

  /** A line of 24 separators (25 fields) makes the whole decoding panic at index 25. */
  lemma TwentyFiveFieldLinePanics(line: string)
    requires Strings.Occurrences(line, FieldSeparator) == CountIndex(0) - 1
    ensures ParseLine(line) == Failure(IndexOutOfRange(CountIndex(0), CountIndex(0)))
  {
    assert EndsOnIncompleteGroup(CountIndex(0));
  }
}
