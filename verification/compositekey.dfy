/**
 * The candidate/department key of the per-candidate-per-department totals:
 * built as `candidate + "_" + department` and split back on `_` by the report.
 */
module CompositeKey {
  import opened Results
  import Strings
  import opened MapSums

  const KeySeparator: char := '_'

  datatype KeyParts = KeyParts(candidate: string, department: string)

  /** The key under which a candidate's votes in a department are added up. */
  function Key(candidate: string, department: string): string {
    candidate + [KeySeparator] + department
  }

  /**
   * The report's decomposition: the first two pieces of `strings.Split(key, "_")`.
   * Indexing piece 1 panics when the key holds no `_`; that is `None` here.
   */
  function SplitKey(key: string): (r: Option<KeyParts>)
    ensures r.Some? <==> KeySeparator in key
  {
    var pieces := Strings.Split(key, KeySeparator);
    Strings.SplitCount(key, KeySeparator);
    if |pieces| < 2 then None else Some(KeyParts(pieces[0], pieces[1]))
  }

  /** Every built key holds `_`, so both indices the report reads are in bounds. */
  lemma KeyAlwaysSplits(candidate: string, department: string)
    ensures SplitKey(Key(candidate, department)).Some?
  {
    assert Key(candidate, department)[|candidate|] == KeySeparator;
  }

  /**
   * Splitting a key gives back its candidate and department exactly when
   * neither of them contains `_`.
   */
  lemma KeyRoundTrip(candidate: string, department: string)
    ensures SplitKey(Key(candidate, department)) == Some(KeyParts(candidate, department))
        <==> KeySeparator !in candidate && KeySeparator !in department
  {
    Strings.SplitAtSeparator(candidate, department, KeySeparator);
    var pieces := Strings.Split(Key(candidate, department), KeySeparator);
    if KeySeparator !in candidate && KeySeparator !in department {
      Strings.SplitWithoutSeparator(candidate, KeySeparator);
      Strings.SplitWithoutSeparator(department, KeySeparator);
      assert pieces == [candidate, department];
    } else {
      assert KeySeparator !in pieces[0] && KeySeparator !in pieces[1];
      assert pieces[0] != candidate || pieces[1] != department;
    }
  }

  /** Two different pairs that share a key, which splits into neither of them. */
  lemma KeyCollision()
    ensures Key("A_B", "C") == Key("A", "B_C") == "A_B_C"
    ensures KeyParts("A_B", "C") != KeyParts("A", "B_C")
    ensures SplitKey("A_B_C") == Some(KeyParts("A", "B"))
  {
    Strings.SplitAtSeparator("A", "B_C", KeySeparator);
    Strings.SplitAtSeparator("B", "C", KeySeparator);
    Strings.SplitWithoutSeparator("A", KeySeparator);
    Strings.SplitWithoutSeparator("B", KeySeparator);
    Strings.SplitWithoutSeparator("C", KeySeparator);
    assert "A" + [KeySeparator] + ("B" + [KeySeparator] + "C") == "A_B_C";
  }

  /** The candidate part of a key built for `department`, read off by length. */
  function CandidateOf(key: string, department: string): string {
    if |key| > |department| then key[..|key| - |department| - 1] else ""
  }

  /** Within one department, the candidate is recovered from the key whatever it contains. */
  lemma CandidateOfKey(candidate: string, department: string)
    ensures CandidateOf(Key(candidate, department), department) == candidate
  {
    assert Key(candidate, department)[..|candidate|] == candidate;
  }

  /** Within one department, different candidates get different keys. */
  lemma KeyInjective(c1: string, c2: string, department: string)
    requires Key(c1, department) == Key(c2, department)
    ensures c1 == c2
  {
    CandidateOfKey(c1, department);
    CandidateOfKey(c2, department);
  }

  /** Keys of `_`-free candidates and departments determine both parts. */
  lemma KeyInjectiveClean(c1: string, d1: string, c2: string, d2: string)
    requires KeySeparator !in c1 && KeySeparator !in d1
    requires KeySeparator !in c2 && KeySeparator !in d2
    requires Key(c1, d1) == Key(c2, d2)
    ensures c1 == c2 && d1 == d2
  {
    KeyRoundTrip(c1, d1);
    KeyRoundTrip(c2, d2);
  }

  /** One line's candidate counts re-keyed by candidate and department. */
  function KeyedByDepartment(counts: map<string, int>, department: string): map<string, int> {
    forall c1, c2 | Key(c1, department) == Key(c2, department)
      ensures c1 == c2
    {
      KeyInjective(c1, c2, department);
    }
    map c | c in counts :: Key(c, department) := counts[c]
  }

  /**
   * Each candidate's count sits under its key, and every key is the key of a
   * candidate of the line.
   */
  lemma KeyedEntries(counts: map<string, int>, department: string)
    ensures forall c :: c in counts ==>
      && Key(c, department) in KeyedByDepartment(counts, department)
      && KeyedByDepartment(counts, department)[Key(c, department)] == counts[c]
    ensures forall k :: k in KeyedByDepartment(counts, department) ==>
      && CandidateOf(k, department) in counts
      && k == Key(CandidateOf(k, department), department)
  {
    forall c | c in counts
      ensures CandidateOf(Key(c, department), department) == c
    {
      CandidateOfKey(c, department);
    }
  }

  /** Re-keying one more candidate adds exactly its key. */
  lemma KeyedInsert(counts: map<string, int>, c: string, v: int, department: string)
    requires c !in counts
    ensures Key(c, department) !in KeyedByDepartment(counts, department)
    ensures KeyedByDepartment(counts[c := v], department)
         == KeyedByDepartment(counts, department)[Key(c, department) := v]
  {
    var k := Key(c, department);
    var kr := KeyedByDepartment(counts, department);
    var r := KeyedByDepartment(counts[c := v], department);
    KeyedEntries(counts, department);
    KeyedEntries(counts[c := v], department);
    if k in kr {
      KeyInjective(c, CandidateOf(k, department), department);
    }
    forall j | j in r
      ensures j in kr[k := v] && r[j] == kr[k := v][j]
    {
      var c' := CandidateOf(j, department);
      if c' != c {
        assert c' in counts;
      }
    }
  }

  /** Re-keying one line's counts leaves their sum unchanged. */
  lemma {:induction false} SumKeyed(counts: map<string, int>, department: string)
    ensures Sum(KeyedByDepartment(counts, department)) == Sum(counts)
    decreases |counts|
  {
    if counts == map[] {
      assert KeyedByDepartment(counts, department) == map[];
    } else {
      var c :| c in counts;
      var rest := counts - {c};
      assert rest.Keys == counts.Keys - {c};
      assert counts == rest[c := counts[c]];
      SumKeyed(rest, department);
      KeyedInsert(rest, c, counts[c], department);
      SumInsert(KeyedByDepartment(rest, department), Key(c, department), counts[c]);
      SumRemove(counts, c);
    }
  }
}
