/**
 * The four result sections of analyzeGifts: exclusive gifts per student (`optimal`), shared
 * gifts (`freeChoice`), SR junk (`tailor`) and SSR junk (`unchi`), each routed from the
 * per-gift records and then sorted.
 */
module Sections {
  import opened Records
  import opened Analysis
  import opened Sorting
  import opened ObjectKeys

  /** SSR gifts that score 1 for everyone but are never listed as junk. */
  const SsrBlacklist: seq<string> := [
    "きらめきの花束",
    "さわやかな花束",
    "美しい花束",
    "初音ミクのフォトカード"
  ]

  /** getRarityOrder: the rank of a rarity name; unknown names rank 0. */
  function RarityOrder(rarity: string): (o: int)
    ensures 0 <= o <= 4
    ensures o == 4 <==> rarity == "SSR"
    ensures o == 3 <==> rarity == "SR"
    ensures o == 2 <==> rarity == "R"
    ensures o == 1 <==> rarity == "N"
  {
    if rarity == "SSR" then 4
    else if rarity == "SR" then 3
    else if rarity == "R" then 2
    else if rarity == "N" then 1
    else 0
  }

  // ---------------------------------------------------------------------------------------
  // Routing conditions

  predicate IsOptimal(a: GiftAnalysis)
  {
    a.maxMultiplier > 1 && a.competitionCount == 1
  }

  predicate IsFreeChoice(a: GiftAnalysis)
  {
    a.maxMultiplier > 1 && a.competitionCount > 1
  }

  predicate IsTailor(a: GiftAnalysis)
  {
    a.gift.rarity == "SR" && a.maxMultiplier == 1
  }

  predicate IsUnchi(a: GiftAnalysis)
  {
    a.gift.rarity == "SSR" && a.maxMultiplier == 1 && a.gift.name !in SsrBlacklist
  }

  /** A record built from `students`: its keys are their Ids and its count is the tie count. */
  predicate BuiltFrom(a: GiftAnalysis, students: seq<Student>)
  {
    a.multipliers.Keys == IdsOf(students) && a.competitionCount == |TiedIds(a.multipliers, a.maxMultiplier)|
  }

  /** The records of `analyses` that `keep` accepts, mapped by `f`, in their original order. */
  function Select<T>(analyses: seq<GiftAnalysis>, keep: GiftAnalysis -> bool, f: GiftAnalysis -> T): (r: seq<T>)
    ensures |r| <= |analyses|
  {
    if analyses == [] then []
    else
      var n := |analyses| - 1;
      Select(analyses[..n], keep, f) + (if keep(analyses[n]) then [f(analyses[n])] else [])
  }

  lemma {:induction false} SelectMembers<T>(analyses: seq<GiftAnalysis>, keep: GiftAnalysis -> bool, f: GiftAnalysis -> T)
    ensures forall x :: x in Select(analyses, keep, f) <==>
      exists i :: 0 <= i < |analyses| && keep(analyses[i]) && f(analyses[i]) == x
  {
    if analyses != [] {
      var n := |analyses| - 1;
      var prefix := analyses[..n];
      SelectMembers(prefix, keep, f);
      assert forall i :: 0 <= i < n ==> prefix[i] == analyses[i];
    }
  }

  /** Select over one more record. */
  lemma SelectStep<T>(analyses: seq<GiftAnalysis>, j: nat, keep: GiftAnalysis -> bool, f: GiftAnalysis -> T)
    requires j < |analyses|
    ensures Select(analyses[..j + 1], keep, f)
         == Select(analyses[..j], keep, f) + (if keep(analyses[j]) then [f(analyses[j])] else [])
  {
    assert analyses[..j + 1][..j] == analyses[..j];
  }

  /** A sorted selection is sorted, is a permutation of the selection, and has its members. */
  lemma SortedSelection<T(!new)>(analyses: seq<GiftAnalysis>, keep: GiftAnalysis -> bool, f: GiftAnalysis -> T,
                                 le: (T, T) -> bool, r: seq<T>)
    requires TotalPreorder(le)
    requires r == SortBy(Select(analyses, keep, f), le)
    ensures multiset(r) == multiset(Select(analyses, keep, f))
    ensures SortedBy(r, le)
    ensures forall x :: x in r <==> exists i :: 0 <= i < |analyses| && keep(analyses[i]) && f(analyses[i]) == x
  {
    var s := Select(analyses, keep, f);
    SortBySorted(s, le);
    SortByMembers(s, le);
    SelectMembers(analyses, keep, f);
    forall x
      ensures x in r <==> exists i :: 0 <= i < |analyses| && keep(analyses[i]) && f(analyses[i]) == x
    {
      assert x in r <==> x in s;
    }
  }

  // ---------------------------------------------------------------------------------------
  // Student lookups

  /** `selectedStudents.find(s => s.Id == id)`: the first student with that Id. */
  function FindById(students: seq<Student>, id: StudentId): (r: Option<Student>)
    ensures r.None? <==> id !in IdsOf(students)
    ensures r.Some? ==> r.value in students && r.value.id == id
    ensures r.Some? ==> exists i :: 0 <= i < |students| && students[i] == r.value &&
                                   forall j :: 0 <= j < i ==> students[j].id != id
  {
    if students == [] then None
    else if students[0].id == id then
      assert students[0] == students[0];
      Some(students[0])
    else
      assert IdsOf(students) == {students[0].id} + IdsOf(students[1..]);
      var r := FindById(students[1..], id);
      if r.Some? then
        var i :| 0 <= i < |students[1..]| && students[1..][i] == r.value &&
          forall j :: 0 <= j < i ==> students[1..][j].id != id;
        assert students[i + 1] == r.value;
        assert forall j :: 0 <= j < i + 1 ==> students[j].id != id by {
          forall j | 0 <= j < i + 1 ensures students[j].id != id {
            if j > 0 { assert students[j] == students[1..][j - 1]; }
          }
        }
        r
      else r
  }

  /** The student stored last under `id` by `result[student.Id] = {...}` for every student. */
  function LastById(students: seq<Student>, id: StudentId): (r: Option<Student>)
    ensures r.None? <==> id !in IdsOf(students)
    ensures r.Some? ==> r.value in students && r.value.id == id
    ensures r.Some? ==> exists i :: 0 <= i < |students| && students[i] == r.value &&
                                   forall j :: i < j < |students| ==> students[j].id != id
  {
    if students == [] then None
    else
      var n := |students| - 1;
      assert IdsOf(students) == IdsOf(students[..n]) + {students[n].id};
      if students[n].id == id then
        assert students[n] == students[n];
        Some(students[n])
      else
        var r := LastById(students[..n], id);
        if r.Some? then
          var i :| 0 <= i < n && students[..n][i] == r.value &&
            forall j :: i < j < n ==> students[..n][j].id != id;
          assert students[i] == r.value;
          assert forall j :: i < j < |students| ==> students[j].id != id by {
            forall j | i < j < |students| ensures students[j].id != id {
              if j < n { assert students[j] == students[..n][j]; }
            }
          }
          r
        else r
  }

  /** With distinct Ids, both lookups return the one student holding the Id. */
  lemma {:induction false} LookupDistinct(students: seq<Student>, i: nat)
    requires DistinctIds(students)
    requires i < |students|
    ensures FindById(students, students[i].id) == Some(students[i])
    ensures LastById(students, students[i].id) == Some(students[i])
  {
    if i > 0 {
      assert students[0].id != students[i].id;
      LookupDistinct(students[1..], i - 1);
    }
    var n := |students| - 1;
    if i < n {
      assert students[n].id != students[i].id;
      assert students[..n][i] == students[i];
      LookupDistinct(students[..n], i);
    }
  }

  // ---------------------------------------------------------------------------------------
  // optimal: gifts whose best multiplier only one student reaches

  datatype GiftEntry = GiftEntry(gift: Gift, multiplier: int)

  datatype StudentGifts = StudentGifts(student: Student, gifts: seq<GiftEntry>)

  /** The exclusive gifts of student `id`, in gift order, before sorting. */
  function OptimalGiftsFor(analyses: seq<GiftAnalysis>, id: StudentId): seq<GiftEntry>
  {
    Select(analyses, OptimalFor(id), EntryOf)
  }

  /** Whether a record is an exclusive gift of student `id`. */
  function OptimalFor(id: StudentId): GiftAnalysis -> bool
  {
    (a: GiftAnalysis) => IsOptimal(a) && id in TiedIds(a.multipliers, a.maxMultiplier)
  }

  /** The entry pushed for an exclusive gift. */
  function EntryOf(a: GiftAnalysis): GiftEntry
  {
    GiftEntry(a.gift, a.maxMultiplier)
  }

  /** The comparator of the exclusive lists. */
  function CompareOptimal(a: GiftEntry, b: GiftEntry): (c: int)
    ensures c < 0 <==> (a.multiplier > b.multiplier ||
                        (a.multiplier == b.multiplier && RarityOrder(a.gift.rarity) > RarityOrder(b.gift.rarity)))
    ensures c == 0 <==> a.multiplier == b.multiplier && RarityOrder(a.gift.rarity) == RarityOrder(b.gift.rarity)
  {
    if b.multiplier != a.multiplier then b.multiplier - a.multiplier
    else RarityOrder(b.gift.rarity) - RarityOrder(a.gift.rarity)
  }

  predicate OptimalOrder(a: GiftEntry, b: GiftEntry)
  {
    CompareOptimal(a, b) <= 0
  }

  /** The exclusive section: only students with at least one exclusive gift, lists sorted. */
  function OptimalSectionOf(analyses: seq<GiftAnalysis>, students: seq<Student>): map<StudentId, StudentGifts>
  {
    map id | id in IdsOf(students) && OptimalGiftsFor(analyses, id) != [] ::
      StudentGifts(LastById(students, id).value, SortBy(OptimalGiftsFor(analyses, id), OptimalOrder))
  }

  lemma OptimalOrderIsPreorder()
    ensures TotalPreorder(OptimalOrder)
  {
  }

  /** A record with a tie count of one has exactly one tied key. */
  lemma {:induction false} SoleTiedId(a: GiftAnalysis, students: seq<Student>)
    requires BuiltFrom(a, students)
    requires IsOptimal(a)
    ensures exists t :: TiedIds(a.multipliers, a.maxMultiplier) == {t}
  {
    var tied := TiedIds(a.multipliers, a.maxMultiplier);
    var t :| t in tied;
    assert |tied - {t}| == 0;
    assert tied == {t};
  }

  /**
   * The entries loop of generateOptimalSection: the first key, in Object.entries order,
   * whose multiplier is `value`; the loop breaks there.
   */
  method FirstKeyWithValue(multipliers: map<StudentId, int>, value: int) returns (found: Option<StudentId>)
    ensures found.None? <==> TiedIds(multipliers, value) == {}
    ensures found.Some? ==> found.value in TiedIds(multipliers, value)
    ensures found.Some? ==> forall y :: y in TiedIds(multipliers, value) ==> found.value <= y
  {
    var keys := AscendingKeys(multipliers.Keys);
    found := None;
    for k := 0 to |keys|
      invariant forall q :: 0 <= q < k ==> multipliers[keys[q]] != value
    {
      if multipliers[keys[k]] == value {
        found := Some(keys[k]);
        FirstTiedKey(multipliers, value, keys, k);
        break;
      }
    }
    if found.None? {
      NoTiedKey(multipliers, value, keys);
    }
  }

  /** In ascending key order, the first key holding `value` is the least such key. */
  lemma FirstTiedKey(multipliers: map<StudentId, int>, value: int, keys: seq<StudentId>, k: nat)
    requires StrictlyAscending(keys) && forall y :: y in keys <==> y in multipliers
    requires k < |keys| && forall q :: 0 <= q < k ==> multipliers[keys[q]] != value
    ensures forall y :: y in TiedIds(multipliers, value) ==> keys[k] <= y
  {
    forall y | y in TiedIds(multipliers, value) ensures keys[k] <= y {
      var q :| 0 <= q < |keys| && keys[q] == y;
      assert k <= q;
    }
  }

  /** When no key in the whole order holds `value`, nothing is tied at it. */
  lemma NoTiedKey(multipliers: map<StudentId, int>, value: int, keys: seq<StudentId>)
    requires forall y :: y in keys <==> y in multipliers
    requires forall q :: 0 <= q < |keys| ==> multipliers[keys[q]] != value
    ensures TiedIds(multipliers, value) == {}
  {
    forall y | y in multipliers ensures multipliers[y] != value {
      var q :| 0 <= q < |keys| && keys[q] == y;
    }
  }

  /** The exclusive lists after routing one more record. */
  lemma OptimalGiftsStep(analyses: seq<GiftAnalysis>, j: nat, id: StudentId)
    requires j < |analyses|
    ensures OptimalGiftsFor(analyses[..j + 1], id) == OptimalGiftsFor(analyses[..j], id) +
      (if IsOptimal(analyses[j]) && id in TiedIds(analyses[j].multipliers, analyses[j].maxMultiplier)
       then [EntryOf(analyses[j])] else [])
  {
    SelectStep(analyses, j, OptimalFor(id), EntryOf);
  }

  /** The loop that gives every selected student an empty list, keyed by its Id. */
  method EmptyLists(students: seq<Student>) returns (result: map<StudentId, StudentGifts>)
    ensures result.Keys == IdsOf(students)
    ensures forall id :: id in result ==> result[id] == StudentGifts(LastById(students, id).value, [])
  {
    result := map[];
    for i := 0 to |students|
      invariant result.Keys == IdsOf(students[..i])
      invariant forall id :: id in result ==> result[id] == StudentGifts(LastById(students[..i], id).value, [])
    {
      assert students[..i + 1][..i] == students[..i];
      assert IdsOf(students[..i + 1]) == IdsOf(students[..i]) + {students[i].id};
      result := result[students[i].id := StudentGifts(students[i], [])];
    }
    assert students[..|students|] == students;
  }

  /** The first two loops of generateOptimalSection: an empty list per student, then routing. */
  method RouteExclusive(analyses: seq<GiftAnalysis>, students: seq<Student>)
      returns (result: map<StudentId, StudentGifts>)
    requires forall i :: 0 <= i < |analyses| ==> BuiltFrom(analyses[i], students)
    ensures result.Keys == IdsOf(students)
    ensures forall id :: id in result ==>
      result[id] == StudentGifts(LastById(students, id).value, OptimalGiftsFor(analyses, id))
  {
    result := EmptyLists(students);
    for j := 0 to |analyses|
      invariant result.Keys == IdsOf(students)
      invariant forall id :: id in result ==>
        result[id] == StudentGifts(LastById(students, id).value, OptimalGiftsFor(analyses[..j], id))
    {
      ghost var before := result;
      result := PushExclusive(result, analyses[j], students);
      forall id | id in result
        ensures result[id] == StudentGifts(LastById(students, id).value, OptimalGiftsFor(analyses[..j + 1], id))
      {
        assert result[id].gifts == before[id].gifts + (if OptimalFor(id)(analyses[j]) then [EntryOf(analyses[j])] else []);
        OptimalGiftsStep(analyses, j, id);
      }
    }
    assert analyses[..|analyses|] == analyses;
  }

  /** The body of the routing loop: an exclusive gift is pushed onto its one student's list. */
  method PushExclusive(result: map<StudentId, StudentGifts>, a: GiftAnalysis, ghost students: seq<Student>)
      returns (updated: map<StudentId, StudentGifts>)
    requires BuiltFrom(a, students)
    requires result.Keys == IdsOf(students)
    ensures updated.Keys == result.Keys
    ensures forall id :: id in result ==>
      (updated[id] == result[id].(gifts := result[id].gifts + if OptimalFor(id)(a) then [EntryOf(a)] else []))
  {
    updated := result;
    if a.maxMultiplier > 1 && a.competitionCount == 1 {
      SoleTiedId(a, students);
      var found := FirstKeyWithValue(a.multipliers, a.maxMultiplier);
      var studentId := found.value;
      var data := result[studentId];
      updated := result[studentId := data.(gifts := data.gifts + [GiftEntry(a.gift, a.maxMultiplier)])];
    }
  }

  /** generateOptimalSection. */
  method GenerateOptimalSection(analyses: seq<GiftAnalysis>, students: seq<Student>)
      returns (r: map<StudentId, StudentGifts>)
    requires forall i :: 0 <= i < |analyses| ==> BuiltFrom(analyses[i], students)
    ensures r == OptimalSectionOf(analyses, students)
    ensures forall id :: id in r ==> r[id].student.id == id && r[id].student in students && r[id].gifts != []
    ensures forall id :: id in r ==> multiset(r[id].gifts) == multiset(OptimalGiftsFor(analyses, id))
    ensures forall id :: id in r ==> SortedBy(r[id].gifts, OptimalOrder)
  {
    var result := RouteExclusive(analyses, students);
    var sorted := SortEachList(result);
    r := KeepNonEmpty(sorted);
    OptimalAssemblyListed(analyses, students, result, sorted, r);
    MapsEqual(r, OptimalSectionOf(analyses, students));
    OptimalSectionShape(analyses, students, r);
  }

  lemma MapsEqual<K, V>(x: map<K, V>, y: map<K, V>)
    requires forall k :: k in x ==> k in y && x[k] == y[k]
    requires forall k :: k in y ==> k in x
    ensures x == y
  {
  }

  lemma OptimalAssemblyListed(analyses: seq<GiftAnalysis>, students: seq<Student>,
                              result: map<StudentId, StudentGifts>, sorted: map<StudentId, StudentGifts>,
                              r: map<StudentId, StudentGifts>)
    requires result.Keys == IdsOf(students)
    requires forall id :: id in result ==>
      result[id] == StudentGifts(LastById(students, id).value, OptimalGiftsFor(analyses, id))
    requires sorted == map id | id in result :: result[id].(gifts := SortBy(result[id].gifts, OptimalOrder))
    requires r == map id | id in sorted && |sorted[id].gifts| > 0 :: sorted[id]
    ensures forall id :: id in r ==> id in OptimalSectionOf(analyses, students) && r[id] == OptimalSectionOf(analyses, students)[id]
    ensures forall id :: id in OptimalSectionOf(analyses, students) ==> id in r
  {
    var spec := OptimalSectionOf(analyses, students);
    forall id | id in r ensures id in spec && r[id] == spec[id] {
      var gifts := OptimalGiftsFor(analyses, id);
      assert id in result;
      assert r[id] == sorted[id] == StudentGifts(LastById(students, id).value, SortBy(gifts, OptimalOrder));
      assert |SortBy(gifts, OptimalOrder)| == |gifts|;
      assert gifts != [];
    }
    forall id | id in spec ensures id in r {
      var gifts := OptimalGiftsFor(analyses, id);
      assert id in result;
      assert sorted[id].gifts == SortBy(gifts, OptimalOrder);
      assert |SortBy(gifts, OptimalOrder)| == |gifts|;
    }
  }

  /** `Object.values(result).forEach(d => d.gifts.sort(...))`. */
  method SortEachList(result: map<StudentId, StudentGifts>) returns (sorted: map<StudentId, StudentGifts>)
    ensures sorted == map id | id in result :: result[id].(gifts := SortBy(result[id].gifts, OptimalOrder))
  {
    sorted := result;
    var pending := result.Keys;
    while pending != {}
      invariant pending <= result.Keys == sorted.Keys
      invariant forall id :: id in pending ==> sorted[id] == result[id]
      invariant forall id :: id in result && id !in pending ==>
        sorted[id] == result[id].(gifts := SortBy(result[id].gifts, OptimalOrder))
      decreases pending
    {
      var id :| id in pending;
      var data := sorted[id];
      sorted := sorted[id := data.(gifts := SortBy(data.gifts, OptimalOrder))];
      pending := pending - {id};
    }
  }

  /** The `filteredResult` loop: keeps the students whose list is not empty. */
  method KeepNonEmpty(result: map<StudentId, StudentGifts>) returns (filtered: map<StudentId, StudentGifts>)
    ensures filtered == map id | id in result && |result[id].gifts| > 0 :: result[id]
  {
    filtered := map[];
    var pending := result.Keys;
    while pending != {}
      invariant pending <= result.Keys
      invariant filtered == map id | id in result && id !in pending && |result[id].gifts| > 0 :: result[id]
      decreases pending
    {
      var id :| id in pending;
      if |result[id].gifts| > 0 {
        filtered := filtered[id := result[id]];
      }
      pending := pending - {id};
    }
  }

  /** The shape of the exclusive section's entry `e` for the Id `id`. */
  ghost predicate ShapedEntry(analyses: seq<GiftAnalysis>, students: seq<Student>, id: StudentId, e: StudentGifts)
  {
    e.student.id == id && e.student in students && e.gifts != [] &&
    multiset(e.gifts) == multiset(OptimalGiftsFor(analyses, id)) && SortedBy(e.gifts, OptimalOrder)
  }

  /** What the exclusive section promises about one student it lists. */
  lemma OptimalEntryShape(analyses: seq<GiftAnalysis>, students: seq<Student>, id: StudentId)
    requires id in OptimalSectionOf(analyses, students)
    ensures var e := OptimalSectionOf(analyses, students)[id];
      e.student.id == id && e.student in students && e.gifts != [] &&
      multiset(e.gifts) == multiset(OptimalGiftsFor(analyses, id)) && SortedBy(e.gifts, OptimalOrder)
  {
    var gifts := OptimalGiftsFor(analyses, id);
    assert id in IdsOf(students) && gifts != [];
    var owner := LastById(students, id);
    var sorted := SortBy(gifts, OptimalOrder);
    assert OptimalSectionOf(analyses, students)[id] == StudentGifts(owner.value, sorted);
    OptimalOrderIsPreorder();
    SortBySorted(gifts, OptimalOrder);
    assert |sorted| == |gifts|;
  }

  /** What the exclusive section promises about every student it lists. */
  lemma OptimalSectionShape(analyses: seq<GiftAnalysis>, students: seq<Student>, r: map<StudentId, StudentGifts>)
    requires r == OptimalSectionOf(analyses, students)
    ensures forall id :: id in r ==> r[id].student.id == id && r[id].student in students && r[id].gifts != []
    ensures forall id :: id in r ==> multiset(r[id].gifts) == multiset(OptimalGiftsFor(analyses, id))
    ensures forall id :: id in r ==> SortedBy(r[id].gifts, OptimalOrder)
  {
    forall id | id in r ensures ShapedEntry(analyses, students, id, r[id]) {
      OptimalEntryShape(analyses, students, id);
    }
  }

  // ---------------------------------------------------------------------------------------
  // freeChoice: gifts whose best multiplier several students reach

  datatype SharedEntry = SharedEntry(gift: Gift, multiplier: int, students: seq<Student>)

  /**
   * The students pushed by the entries loop: for each key in `keys` whose multiplier is `value`,
   * the selected student with that Id, if any.
   */
  function MatchingStudents(keys: seq<StudentId>, multipliers: map<StudentId, int>, value: int,
                            students: seq<Student>): seq<Student>
    requires forall k :: k in keys ==> k in multipliers
  {
    if keys == [] then []
    else
      var n := |keys| - 1;
      var prev := MatchingStudents(keys[..n], multipliers, value, students);
      var found := FindById(students, keys[n]);
      if multipliers[keys[n]] == value && found.Some? then prev + [found.value] else prev
  }

  lemma {:induction false} MatchingStudentsMembers(keys: seq<StudentId>, multipliers: map<StudentId, int>,
                                                  value: int, students: seq<Student>)
    requires forall k :: k in keys ==> k in multipliers
    ensures forall s :: s in MatchingStudents(keys, multipliers, value, students) <==>
      exists k :: k in keys && multipliers[k] == value && FindById(students, k) == Some(s)
  {
    if keys != [] {
      var n := |keys| - 1;
      MatchingStudentsMembers(keys[..n], multipliers, value, students);
      assert keys == keys[..n] + [keys[n]];
    }
  }

  /** A listed student is a selected student whose Id carries `value`. */
  lemma {:induction false} MatchingStudentHolds(keys: seq<StudentId>, multipliers: map<StudentId, int>,
                                               value: int, students: seq<Student>, s: Student)
    requires forall k :: k in keys ==> k in multipliers
    requires s in MatchingStudents(keys, multipliers, value, students)
    ensures s in students && s.id in multipliers && multipliers[s.id] == value
  {
    var n := |keys| - 1;
    var found := FindById(students, keys[n]);
    if !(multipliers[keys[n]] == value && found.Some? && s == found.value) {
      assert forall k :: k in keys[..n] ==> k in keys;
      MatchingStudentHolds(keys[..n], multipliers, value, students, s);
    }
  }

  /** The student found for a key that carries `value` is listed. */
  lemma {:induction false} MatchingStudentIncluded(keys: seq<StudentId>, multipliers: map<StudentId, int>,
                                                  value: int, students: seq<Student>, k: StudentId)
    requires forall k :: k in keys ==> k in multipliers
    requires k in keys && multipliers[k] == value && FindById(students, k).Some?
    ensures FindById(students, k).value in MatchingStudents(keys, multipliers, value, students)
  {
    var n := |keys| - 1;
    if keys[n] != k {
      assert forall k :: k in keys[..n] ==> k in keys;
      assert k in keys[..n] by { assert keys == keys[..n] + [keys[n]]; }
      MatchingStudentIncluded(keys[..n], multipliers, value, students, k);
    }
  }

  /** Every listed student carries one of the keys, and the keys come out in ascending order. */
  lemma {:induction false} MatchingStudentsAscending(keys: seq<StudentId>, multipliers: map<StudentId, int>,
                                                    value: int, students: seq<Student>)
    requires forall k :: k in keys ==> k in multipliers && k in IdsOf(students)
    requires StrictlyAscending(keys)
    ensures forall s :: s in MatchingStudents(keys, multipliers, value, students) ==> s.id in keys
    ensures StrictlyAscending(IdsOfList(MatchingStudents(keys, multipliers, value, students)))
  {
    if keys != [] {
      var n := |keys| - 1;
      var prefix := keys[..n];
      assert forall k :: k in prefix ==> k in keys;
      MatchingStudentsAscending(prefix, multipliers, value, students);
      var prev := MatchingStudents(prefix, multipliers, value, students);
      forall s | s in prev ensures s.id < keys[n] && s.id in keys {
        var j :| 0 <= j < n && prefix[j] == s.id;
        assert keys[j] == s.id;
      }
      var found := FindById(students, keys[n]);
      if multipliers[keys[n]] == value && found.Some? {
        AppendAscending(prev, found.value);
      }
    }
  }

  /** A student whose Id exceeds every Id of an ascending list extends it ascending. */
  lemma AppendAscending(prev: seq<Student>, last: Student)
    requires StrictlyAscending(IdsOfList(prev))
    requires forall s :: s in prev ==> s.id < last.id
    ensures StrictlyAscending(IdsOfList(prev + [last]))
  {
    var ids := IdsOfList(prev + [last]);
    forall i, j | 0 <= i < j < |ids| ensures ids[i] < ids[j] {
      assert prev[i] in prev;
      if j < |prev| {
        assert ids[i] == IdsOfList(prev)[i] && ids[j] == IdsOfList(prev)[j];
      }
    }
  }

  /** The Ids of a list of students, in list order. */
  function IdsOfList(students: seq<Student>): seq<StudentId>
  {
    seq(|students|, i requires 0 <= i < |students| => students[i].id)
  }

  /** The shared entry of one record. */
  function SharedEntryOf(a: GiftAnalysis, students: seq<Student>): SharedEntry
  {
    SharedEntry(a.gift, a.maxMultiplier,
      MatchingStudents(AscendingKeys(a.multipliers.Keys), a.multipliers, a.maxMultiplier, students))
  }

  /** `a => SharedEntryOf(a, students)`. */
  function SharedEntryFor(students: seq<Student>): GiftAnalysis -> SharedEntry
  {
    (a: GiftAnalysis) => SharedEntryOf(a, students)
  }

  function FreeChoiceOf(analyses: seq<GiftAnalysis>, students: seq<Student>): seq<SharedEntry>
  {
    Select(analyses, IsFreeChoice, SharedEntryFor(students))
  }

  /** The comparator of the shared list. */
  function CompareShared(a: SharedEntry, b: SharedEntry): (c: int)
    ensures c < 0 <==> (|| a.multiplier > b.multiplier
                        || (a.multiplier == b.multiplier && |a.students| > |b.students|)
                        || (a.multiplier == b.multiplier && |a.students| == |b.students| &&
                            RarityOrder(a.gift.rarity) > RarityOrder(b.gift.rarity)))
    ensures c == 0 <==> (a.multiplier == b.multiplier && |a.students| == |b.students| &&
                         RarityOrder(a.gift.rarity) == RarityOrder(b.gift.rarity))
  {
    if b.multiplier != a.multiplier then b.multiplier - a.multiplier
    else if |b.students| != |a.students| then |b.students| - |a.students|
    else RarityOrder(b.gift.rarity) - RarityOrder(a.gift.rarity)
  }

  predicate SharedOrder(a: SharedEntry, b: SharedEntry)
  {
    CompareShared(a, b) <= 0
  }

  lemma SharedOrderIsPreorder()
    ensures TotalPreorder(SharedOrder)
  {
  }

  /** MatchingStudents over one more key. */
  lemma MatchingStep(keys: seq<StudentId>, multipliers: map<StudentId, int>, value: int,
                     students: seq<Student>, k: nat)
    requires forall key :: key in keys ==> key in multipliers
    requires k < |keys|
    ensures MatchingStudents(keys[..k + 1], multipliers, value, students)
         == MatchingStudents(keys[..k], multipliers, value, students)
            + (if multipliers[keys[k]] == value && FindById(students, keys[k]).Some?
               then [FindById(students, keys[k]).value] else [])
  {
    assert keys[..k + 1][..k] == keys[..k];
  }

  /**
   * The entries loop of generateFreeChoiceSection: every key, in Object.entries order, whose
   * multiplier is `value`, looked up among the selected students.
   */
  method CollectMatchingStudents(multipliers: map<StudentId, int>, value: int, students: seq<Student>)
      returns (matchingStudents: seq<Student>)
    ensures matchingStudents == MatchingStudents(AscendingKeys(multipliers.Keys), multipliers, value, students)
  {
    var keys := AscendingKeys(multipliers.Keys);
    matchingStudents := [];
    for k := 0 to |keys|
      invariant matchingStudents == MatchingStudents(keys[..k], multipliers, value, students)
    {
      MatchingStep(keys, multipliers, value, students, k);
      var studentId := keys[k];
      if multipliers[studentId] == value {
        var student := FindById(students, studentId);
        if student.Some? {
          matchingStudents := matchingStudents + [student.value];
        }
      }
    }
    assert keys[..|keys|] == keys;
  }

  /** generateFreeChoiceSection. */
  method GenerateFreeChoiceSection(analyses: seq<GiftAnalysis>, students: seq<Student>)
      returns (r: seq<SharedEntry>)
    ensures r == SortBy(FreeChoiceOf(analyses, students), SharedOrder)
    ensures multiset(r) == multiset(FreeChoiceOf(analyses, students))
    ensures SortedBy(r, SharedOrder)
    ensures forall e :: e in r <==>
      exists i :: 0 <= i < |analyses| && IsFreeChoice(analyses[i]) && SharedEntryOf(analyses[i], students) == e
  {
    var result: seq<SharedEntry> := [];
    for j := 0 to |analyses|
      invariant result == FreeChoiceOf(analyses[..j], students)
    {
      var a := analyses[j];
      SelectStep(analyses, j, IsFreeChoice, SharedEntryFor(students));
      if a.maxMultiplier > 1 && a.competitionCount > 1 {
        var matchingStudents := CollectMatchingStudents(a.multipliers, a.maxMultiplier, students);
        result := result + [SharedEntry(a.gift, a.maxMultiplier, matchingStudents)];
      }
    }
    assert analyses[..|analyses|] == analyses;
    r := SortBy(result, SharedOrder);
    SortedSelection(analyses, IsFreeChoice, SharedEntryFor(students), SharedOrder, r);
  }

  // ---------------------------------------------------------------------------------------
  // tailor and unchi: junk gifts, sorted by name

  /** localeCompare is a consistent comparator: it induces a total preorder on names. */
  ghost predicate ValidCollator(collate: (string, string) -> int)
  {
    && (forall x, y :: collate(x, y) <= 0 || collate(y, x) <= 0)
    && (forall x, y, z :: collate(x, y) <= 0 && collate(y, z) <= 0 ==> collate(x, z) <= 0)
  }

  function NameOrder(collate: (string, string) -> int): (Gift, Gift) -> bool
  {
    (a: Gift, b: Gift) => collate(a.name, b.name) <= 0
  }

  lemma NameOrderIsPreorder(collate: (string, string) -> int)
    requires ValidCollator(collate)
    ensures TotalPreorder(NameOrder(collate))
  {
    var le := NameOrder(collate);
    forall x, y, z | le(x, y) && le(y, z) ensures le(x, z) {
      assert collate(x.name, y.name) <= 0 && collate(y.name, z.name) <= 0;
    }
    forall x, y ensures le(x, y) || le(y, x) {
      assert collate(x.name, y.name) <= 0 || collate(y.name, x.name) <= 0;
    }
  }

  function GiftOf(a: GiftAnalysis): Gift
  {
    a.gift
  }

  function TailorOf(analyses: seq<GiftAnalysis>): seq<Gift>
  {
    Select(analyses, IsTailor, GiftOf)
  }

  function UnchiOf(analyses: seq<GiftAnalysis>): seq<Gift>
  {
    Select(analyses, IsUnchi, GiftOf)
  }

  /** generateTailorSection. */
  method GenerateTailorSection(analyses: seq<GiftAnalysis>, collate: (string, string) -> int)
      returns (r: seq<Gift>)
    requires ValidCollator(collate)
    ensures r == SortBy(TailorOf(analyses), NameOrder(collate))
    ensures multiset(r) == multiset(TailorOf(analyses))
    ensures forall i, j :: 0 <= i < j < |r| ==> collate(r[i].name, r[j].name) <= 0
    ensures forall g :: g in r <==> exists i :: 0 <= i < |analyses| && IsTailor(analyses[i]) && analyses[i].gift == g
  {
    var result: seq<Gift> := [];
    for j := 0 to |analyses|
      invariant result == TailorOf(analyses[..j])
    {
      var a := analyses[j];
      SelectStep(analyses, j, IsTailor, GiftOf);
      if a.gift.rarity == "SR" && a.maxMultiplier == 1 {
        result := result + [a.gift];
      }
    }
    assert analyses[..|analyses|] == analyses;
    r := SortBy(result, NameOrder(collate));
    NameOrderIsPreorder(collate);
    SortedSelection(analyses, IsTailor, GiftOf, NameOrder(collate), r);
  }

  /** generateUnchiSection. */
  method GenerateUnchiSection(analyses: seq<GiftAnalysis>, collate: (string, string) -> int)
      returns (r: seq<Gift>)
    requires ValidCollator(collate)
    ensures r == SortBy(UnchiOf(analyses), NameOrder(collate))
    ensures multiset(r) == multiset(UnchiOf(analyses))
    ensures forall i, j :: 0 <= i < j < |r| ==> collate(r[i].name, r[j].name) <= 0
    ensures forall g :: g in r <==> exists i :: 0 <= i < |analyses| && IsUnchi(analyses[i]) && analyses[i].gift == g
    ensures forall g :: g in r ==> g.name !in SsrBlacklist
  {
    var result: seq<Gift> := [];
    for j := 0 to |analyses|
      invariant result == UnchiOf(analyses[..j])
    {
      var a := analyses[j];
      SelectStep(analyses, j, IsUnchi, GiftOf);
      if a.gift.rarity == "SSR" && a.maxMultiplier == 1 {
        if a.gift.name !in SsrBlacklist {
          result := result + [a.gift];
        }
      }
    }
    assert analyses[..|analyses|] == analyses;
    r := SortBy(result, NameOrder(collate));
    NameOrderIsPreorder(collate);
    SortedSelection(analyses, IsUnchi, GiftOf, NameOrder(collate), r);
  }
}
