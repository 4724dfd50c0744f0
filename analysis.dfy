/**
 * The scoring pass of analyzeGifts: for one gift, the multiplier of every selected student
 * (an object keyed by student Id), the largest multiplier, and how many entries tie at it.
 */
module Analysis {
  import opened Records
  import opened Scoring

  /** The per-gift record built by analyzeGifts. */
  datatype GiftAnalysis = GiftAnalysis(
    gift: Gift,
    multipliers: map<StudentId, int>,
    maxMultiplier: int,
    competitionCount: nat)

  /**
   * The `multipliers` object after `multipliers[student.Id] = mult` for every student in
   * order: a later student with the same Id overwrites an earlier one.
   */
  function MultipliersOf(students: seq<Student>, gift: Gift): (m: map<StudentId, int>)
    ensures m.Keys == IdsOf(students)
    ensures forall id :: id in m ==> 1 <= m[id] <= 4
  {
    if students == [] then map[]
    else
      var n := |students| - 1;
      var prefix := students[..n];
      assert IdsOf(students) == IdsOf(prefix) + {students[n].id};
      MultipliersOf(prefix, gift)[students[n].id := CalculateMultiplier(students[n], gift)]
  }

  /** `maxMultiplier`: starts at 1 and is raised by every larger multiplier. */
  function MaxMultiplierOf(students: seq<Student>, gift: Gift): (mx: int)
    ensures 1 <= mx <= 4
    ensures students == [] ==> mx == 1
    ensures forall i :: 0 <= i < |students| ==> CalculateMultiplier(students[i], gift) <= mx
    ensures students != [] ==> exists i :: 0 <= i < |students| && CalculateMultiplier(students[i], gift) == mx
  {
    if students == [] then 1
    else
      var n := |students| - 1;
      var prev := MaxMultiplierOf(students[..n], gift);
      var mult := CalculateMultiplier(students[n], gift);
      assert forall i :: 0 <= i < n ==> students[..n][i] == students[i];
      if mult > prev then mult else prev
  }

  /** The keys whose multiplier equals `value`. */
  function TiedIds(multipliers: map<StudentId, int>, value: int): set<StudentId>
  {
    set id | id in multipliers && multipliers[id] == value
  }

  /** The record analyzeGifts builds for `gift`. */
  function GiftAnalysisOf(students: seq<Student>, gift: Gift): GiftAnalysis
  {
    var m := MultipliersOf(students, gift);
    var mx := MaxMultiplierOf(students, gift);
    GiftAnalysis(gift, m, mx, |TiedIds(m, mx)|)
  }

  /** The body of `allGifts.map(gift => ...)` in analyzeGifts. */
  method AnalyzeGift(students: seq<Student>, gift: Gift) returns (a: GiftAnalysis)
    ensures a == GiftAnalysisOf(students, gift)
    ensures a.multipliers.Keys == IdsOf(students)
    ensures 1 <= a.maxMultiplier <= 4
  {
    var multipliers: map<StudentId, int> := map[];
    var maxMultiplier := 1;
    var i := 0;
    while i < |students|
      invariant i <= |students|
      invariant multipliers == MultipliersOf(students[..i], gift)
      invariant maxMultiplier == MaxMultiplierOf(students[..i], gift)
    {
      var mult := CalculateMultiplier(students[i], gift);
      ScoringStep(students, gift, i);
      multipliers := multipliers[students[i].id := mult];
      if mult > maxMultiplier {
        maxMultiplier := mult;
      }
      i := i + 1;
    }
    assert students[..i] == students;
    var tied := set id | id in multipliers && multipliers[id] == maxMultiplier;
    assert tied == TiedIds(multipliers, maxMultiplier);
    var competitionCount := |tied|;
    a := GiftAnalysis(gift, multipliers, maxMultiplier, competitionCount);
  }

  /** Scoring one more student records its multiplier and raises the maximum to it if larger. */
  lemma ScoringStep(students: seq<Student>, gift: Gift, i: nat)
    requires i < |students|
    ensures var mult := CalculateMultiplier(students[i], gift);
      && MultipliersOf(students[..i + 1], gift) == MultipliersOf(students[..i], gift)[students[i].id := mult]
      && MaxMultiplierOf(students[..i + 1], gift) ==
           (if mult > MaxMultiplierOf(students[..i], gift) then mult else MaxMultiplierOf(students[..i], gift))
  {
    assert students[..i + 1][..i] == students[..i];
  }

  /** With distinct Ids, every student's own multiplier is the one recorded under its Id. */
  lemma {:induction false} MultipliersOfAt(students: seq<Student>, gift: Gift, i: nat)
    requires DistinctIds(students)
    requires i < |students|
    ensures MultipliersOf(students, gift)[students[i].id] == CalculateMultiplier(students[i], gift)
  {
    var n := |students| - 1;
    if i < n {
      var prefix := students[..n];
      assert prefix[i] == students[i];
      assert students[i].id != students[n].id;
      forall a, b | 0 <= a < b < n ensures prefix[a].id != prefix[b].id {
        assert prefix[a] == students[a] && prefix[b] == students[b];
      }
      MultipliersOfAt(prefix, gift, i);
    }
  }

  /** With distinct Ids, the students whose multiplier is `value` are exactly the tied keys. */
  lemma TiedIdsAreTiedStudents(students: seq<Student>, gift: Gift, value: int)
    requires DistinctIds(students)
    ensures TiedIds(MultipliersOf(students, gift), value)
         == set i | 0 <= i < |students| && CalculateMultiplier(students[i], gift) == value :: students[i].id
  {
    var m := MultipliersOf(students, gift);
    forall i | 0 <= i < |students| ensures m[students[i].id] == CalculateMultiplier(students[i], gift) {
      MultipliersOfAt(students, gift, i);
    }
  }

  lemma {:induction false} IdsOfSize(students: seq<Student>)
    ensures |IdsOf(students)| <= |students|
  {
    if students != [] {
      var n := |students| - 1;
      IdsOfSize(students[..n]);
      assert IdsOf(students) == IdsOf(students[..n]) + {students[n].id};
    }
  }

  /**
   * The per-gift summary: `maxMultiplier` is the largest recorded multiplier and is at least
   * 1; with at least one student and distinct Ids, between 1 and all of the students tie at it.
   */
  lemma GiftSummary(students: seq<Student>, gift: Gift)
    requires students != []
    requires DistinctIds(students)
    ensures var a := GiftAnalysisOf(students, gift);
      && 1 <= a.maxMultiplier <= 4
      && (forall id :: id in a.multipliers ==> a.multipliers[id] <= a.maxMultiplier)
      && (exists id :: id in a.multipliers && a.multipliers[id] == a.maxMultiplier)
      && 1 <= a.competitionCount <= |students|
  {
    var a := GiftAnalysisOf(students, gift);
    forall id | id in a.multipliers ensures a.multipliers[id] <= a.maxMultiplier {
      var j :| 0 <= j < |students| && students[j].id == id;
      MultipliersOfAt(students, gift, j);
    }
    var i :| 0 <= i < |students| && CalculateMultiplier(students[i], gift) == a.maxMultiplier;
    MultipliersOfAt(students, gift, i);
    assert students[i].id in TiedIds(a.multipliers, a.maxMultiplier);
    var tied := TiedIds(a.multipliers, a.maxMultiplier);
    var ids := IdsOf(students);
    assert ids == tied + (ids - tied);
    IdsOfSize(students);
  }
}
