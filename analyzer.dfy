/**
 * analyzeGifts: score every gift for the selected students, then route each gift to the
 * section its best multiplier and tie count call for. The lemmas here say what the four
 * sections mean in terms of the students' own multipliers.
 */
module Analyzer {
  import opened Records
  import opened Scoring
  import opened Analysis
  import opened Sorting
  import opened Sections
  import opened ObjectKeys

  /** The object analyzeGifts returns. */
  datatype AnalysisResult = AnalysisResult(
    optimal: map<StudentId, StudentGifts>,
    freeChoice: seq<SharedEntry>,
    tailor: seq<Gift>,
    unchi: seq<Gift>)

  /** `allGifts.map(...)`: one record per gift, in gift order. */
  function AnalysesOf(students: seq<Student>, gifts: seq<Gift>): seq<GiftAnalysis>
  {
    seq(|gifts|, i requires 0 <= i < |gifts| => GiftAnalysisOf(students, gifts[i]))
  }

  /** The four sections analyzeGifts assembles for non-empty inputs. */
  function ResultOf(students: seq<Student>, gifts: seq<Gift>, collate: (string, string) -> int): AnalysisResult
  {
    var analyses := AnalysesOf(students, gifts);
    AnalysisResult(
      OptimalSectionOf(analyses, students),
      SortBy(FreeChoiceOf(analyses, students), SharedOrder),
      SortBy(TailorOf(analyses), NameOrder(collate)),
      SortBy(UnchiOf(analyses), NameOrder(collate)))
  }

  /** Every record of the `map` over the gifts is built from the selected students. */
  lemma AnalysesBuilt(students: seq<Student>, gifts: seq<Gift>)
    ensures forall i :: 0 <= i < |gifts| ==> BuiltFrom(AnalysesOf(students, gifts)[i], students)
  {
    forall i | 0 <= i < |gifts| ensures BuiltFrom(AnalysesOf(students, gifts)[i], students) {
      assert AnalysesOf(students, gifts)[i] == GiftAnalysisOf(students, gifts[i]);
    }
  }

  /** The `map` over the gifts: one analysis record per gift, in the gifts' order. */
  method AnalyzeEach(students: seq<Student>, gifts: seq<Gift>) returns (analyses: seq<GiftAnalysis>)
    ensures |analyses| == |gifts|
    ensures forall k :: 0 <= k < |gifts| ==> analyses[k] == GiftAnalysisOf(students, gifts[k])
    ensures analyses == AnalysesOf(students, gifts)
  {
    analyses := [];
    for i := 0 to |gifts|
      invariant |analyses| == i
      invariant forall k :: 0 <= k < i ==> analyses[k] == GiftAnalysisOf(students, gifts[k])
    {
      var a := AnalyzeGift(students, gifts[i]);
      analyses := analyses + [a];
    }
  }

  /** analyzeGifts: `null` when no student or no gift is given. */
  method AnalyzeGifts(students: seq<Student>, gifts: seq<Gift>, collate: (string, string) -> int)
      returns (r: Option<AnalysisResult>)
    requires ValidCollator(collate)
    ensures r.None? <==> students == [] || gifts == []
    ensures r.Some? ==> r.value == ResultOf(students, gifts, collate)
  {
    if |students| == 0 || |gifts| == 0 {
      return None;
    }
    var analyses := AnalyzeEach(students, gifts);
    AnalysesBuilt(students, gifts);
    var optimal := GenerateOptimalSection(analyses, students);
    var freeChoice := GenerateFreeChoiceSection(analyses, students);
    var tailor := GenerateTailorSection(analyses, collate);
    var unchi := GenerateUnchiSection(analyses, collate);
    r := Some(AnalysisResult(optimal, freeChoice, tailor, unchi));
  }

  // ---------------------------------------------------------------------------------------
  // What the routing conditions mean for the students

  /** Student `i` has the largest multiplier for `gift` among the selected students. */
  predicate IsTopScorer(students: seq<Student>, gift: Gift, i: nat)
    requires i < |students|
  {
    forall k :: 0 <= k < |students| ==> CalculateMultiplier(students[k], gift) <= CalculateMultiplier(students[i], gift)
  }

  /** Student `i` likes `gift` (multiplier above 1) strictly more than every other student. */
  predicate ExclusiveTo(students: seq<Student>, gift: Gift, i: nat)
    requires i < |students|
  {
    && CalculateMultiplier(students[i], gift) > 1
    && forall k :: 0 <= k < |students| && k != i ==>
         CalculateMultiplier(students[k], gift) < CalculateMultiplier(students[i], gift)
  }

  /** Two different students share the largest multiplier for `gift`, and it is above 1. */
  predicate SharedBy(students: seq<Student>, gift: Gift)
  {
    exists i, j :: 0 <= i < j < |students| && IsTopScorer(students, gift, i) &&
      CalculateMultiplier(students[i], gift) > 1 &&
      CalculateMultiplier(students[j], gift) == CalculateMultiplier(students[i], gift)
  }

  /** No selected student likes `gift`: every multiplier is 1. */
  predicate LikedByNobody(students: seq<Student>, gift: Gift)
  {
    forall i :: 0 <= i < |students| ==> CalculateMultiplier(students[i], gift) == 1
  }

  /** With distinct Ids, a tied key is the Id of a student whose multiplier is the maximum. */
  lemma TiedIndex(students: seq<Student>, gift: Gift, t: StudentId) returns (idx: nat)
    requires DistinctIds(students)
    requires t in TiedIds(MultipliersOf(students, gift), MaxMultiplierOf(students, gift))
    ensures idx < |students| && students[idx].id == t
    ensures CalculateMultiplier(students[idx], gift) == MaxMultiplierOf(students, gift)
  {
    idx :| 0 <= idx < |students| && students[idx].id == t;
    MultipliersOfAt(students, gift, idx);
  }

  /** A student whose multiplier is the maximum has its Id among the tied keys. */
  lemma TopIsTied(students: seq<Student>, gift: Gift, i: nat)
    requires DistinctIds(students)
    requires i < |students|
    requires CalculateMultiplier(students[i], gift) == MaxMultiplierOf(students, gift)
    ensures students[i].id in TiedIds(MultipliersOf(students, gift), MaxMultiplierOf(students, gift))
  {
    MultipliersOfAt(students, gift, i);
  }

  /** The best multiplier is 1 exactly when no student likes the gift. */
  lemma JunkMeaning(students: seq<Student>, gift: Gift)
    ensures GiftAnalysisOf(students, gift).maxMultiplier == 1 <==> LikedByNobody(students, gift)
  {
    if LikedByNobody(students, gift) && students != [] {
      var i :| 0 <= i < |students| && CalculateMultiplier(students[i], gift) == MaxMultiplierOf(students, gift);
    }
  }

  /** The one tied key of an exclusive record belongs to a student the gift is exclusive to. */
  lemma ExclusiveSufficient(students: seq<Student>, gift: Gift, i: nat)
    requires DistinctIds(students)
    requires i < |students|
    requires IsOptimal(GiftAnalysisOf(students, gift))
    requires students[i].id in TiedIds(MultipliersOf(students, gift), MaxMultiplierOf(students, gift))
    ensures ExclusiveTo(students, gift, i)
  {
    var tied := TiedIds(MultipliersOf(students, gift), MaxMultiplierOf(students, gift));
    var idx := TiedIndex(students, gift, students[i].id);
    assert idx == i;
    assert tied == {students[i].id} by {
      assert |tied - {students[i].id}| == 0;
    }
    forall k | 0 <= k < |students| && k != i
      ensures CalculateMultiplier(students[k], gift) < CalculateMultiplier(students[i], gift)
    {
      if CalculateMultiplier(students[k], gift) == MaxMultiplierOf(students, gift) {
        TopIsTied(students, gift, k);
      }
    }
  }

  /** A gift exclusive to a student makes an exclusive record whose one tied key is that student's. */
  lemma ExclusiveNecessary(students: seq<Student>, gift: Gift, i: nat)
    requires DistinctIds(students)
    requires i < |students|
    requires ExclusiveTo(students, gift, i)
    ensures IsOptimal(GiftAnalysisOf(students, gift))
    ensures students[i].id in TiedIds(MultipliersOf(students, gift), MaxMultiplierOf(students, gift))
  {
    var mx := MaxMultiplierOf(students, gift);
    var tied := TiedIds(MultipliersOf(students, gift), mx);
    var w :| 0 <= w < |students| && CalculateMultiplier(students[w], gift) == mx;
    assert w == i;
    TopIsTied(students, gift, i);
    forall t | t in tied ensures t == students[i].id {
      var idx := TiedIndex(students, gift, t);
      assert idx == i;
    }
    assert tied == {students[i].id};
  }

  /** A student is the one tied key of an exclusive record exactly when the gift is exclusive to it. */
  lemma ExclusiveMeaning(students: seq<Student>, gift: Gift, i: nat)
    requires DistinctIds(students)
    requires i < |students|
    ensures var a := GiftAnalysisOf(students, gift);
      IsOptimal(a) && students[i].id in TiedIds(a.multipliers, a.maxMultiplier) <==> ExclusiveTo(students, gift, i)
  {
    if IsOptimal(GiftAnalysisOf(students, gift)) &&
       students[i].id in TiedIds(MultipliersOf(students, gift), MaxMultiplierOf(students, gift)) {
      ExclusiveSufficient(students, gift, i);
    }
    if ExclusiveTo(students, gift, i) {
      ExclusiveNecessary(students, gift, i);
    }
  }

  /** Two different keys holding `value` make a tie count of at least two. */
  lemma TwoTied(m: map<StudentId, int>, value: int, a: StudentId, b: StudentId)
    requires a in m && b in m && m[a] == value && m[b] == value && a != b
    ensures |TiedIds(m, value)| >= 2
  {
    var tied := TiedIds(m, value);
    var pair := {a, b};
    assert |pair| == 2;
    assert pair <= tied;
    assert tied == pair + (tied - pair);
  }

  /** A tie count above one has two different tied keys. */
  lemma TwoKeys(m: map<StudentId, int>, value: int) returns (a: StudentId, b: StudentId)
    requires |TiedIds(m, value)| > 1
    ensures a in TiedIds(m, value) && b in TiedIds(m, value) && a != b
  {
    var tied := TiedIds(m, value);
    a :| a in tied;
    assert |tied - {a}| > 0;
    b :| b in tied - {a};
  }

  /** Two different students at a best multiplier above 1 witness a shared gift. */
  lemma SharedWitness(students: seq<Student>, gift: Gift, i: nat, j: nat)
    requires i < |students| && j < |students| && i != j
    requires CalculateMultiplier(students[i], gift) == MaxMultiplierOf(students, gift)
    requires CalculateMultiplier(students[j], gift) == MaxMultiplierOf(students, gift)
    requires MaxMultiplierOf(students, gift) > 1
    ensures SharedBy(students, gift)
  {
    var lo, hi := if i < j then i else j, if i < j then j else i;
    assert IsTopScorer(students, gift, lo);
  }

  /** A shared record has two different students at the best multiplier. */
  lemma SharedSufficient(students: seq<Student>, gift: Gift)
    requires DistinctIds(students)
    requires IsFreeChoice(GiftAnalysisOf(students, gift))
    ensures SharedBy(students, gift)
  {
    var mx := MaxMultiplierOf(students, gift);
    var t1, t2 := TwoKeys(MultipliersOf(students, gift), mx);
    var i1 := TiedIndex(students, gift, t1);
    var i2 := TiedIndex(students, gift, t2);
    SharedWitness(students, gift, i1, i2);
  }

  /** Two different students at a best multiplier above 1 make a shared record. */
  lemma SharedNecessary(students: seq<Student>, gift: Gift, i: nat, j: nat)
    requires DistinctIds(students)
    requires i < j < |students| && IsTopScorer(students, gift, i)
    requires CalculateMultiplier(students[i], gift) > 1
    requires CalculateMultiplier(students[j], gift) == CalculateMultiplier(students[i], gift)
    ensures IsFreeChoice(GiftAnalysisOf(students, gift))
  {
    var m := MultipliersOf(students, gift);
    var mx := MaxMultiplierOf(students, gift);
    var w :| 0 <= w < |students| && CalculateMultiplier(students[w], gift) == mx;
    assert CalculateMultiplier(students[i], gift) == mx;
    MultipliersOfAt(students, gift, i);
    MultipliersOfAt(students, gift, j);
    TwoTied(m, mx, students[i].id, students[j].id);
  }

  /** A record is shared exactly when two different students share a best multiplier above 1. */
  lemma SharedMeaning(students: seq<Student>, gift: Gift)
    requires DistinctIds(students)
    ensures IsFreeChoice(GiftAnalysisOf(students, gift)) <==> SharedBy(students, gift)
  {
    if IsFreeChoice(GiftAnalysisOf(students, gift)) {
      SharedSufficient(students, gift);
    }
    if SharedBy(students, gift) {
      var i, j :| 0 <= i < j < |students| && IsTopScorer(students, gift, i) &&
        CalculateMultiplier(students[i], gift) > 1 &&
        CalculateMultiplier(students[j], gift) == CalculateMultiplier(students[i], gift);
      SharedNecessary(students, gift, i, j);
    }
  }

  // ---------------------------------------------------------------------------------------
  // The students of a shared entry

  /** The students listed by the entries loop for the best multiplier of `gift`. */
  function TopStudents(students: seq<Student>, gift: Gift): seq<Student>
  {
    var m := MultipliersOf(students, gift);
    MatchingStudents(AscendingKeys(m.Keys), m, MaxMultiplierOf(students, gift), students)
  }

  /** A listed student is a selected student at the best multiplier. */
  lemma TopStudentsSound(students: seq<Student>, gift: Gift, s: Student)
    requires DistinctIds(students)
    requires s in TopStudents(students, gift)
    ensures s in students && CalculateMultiplier(s, gift) == MaxMultiplierOf(students, gift)
  {
    var m := MultipliersOf(students, gift);
    var keys := AscendingKeys(m.Keys);
    var mx := MaxMultiplierOf(students, gift);
    MatchingStudentHolds(keys, m, mx, students, s);
    var idx :| 0 <= idx < |students| && students[idx] == s;
    MultipliersOfAt(students, gift, idx);
  }

  /** Every selected student at the best multiplier is listed. */
  lemma TopStudentsComplete(students: seq<Student>, gift: Gift, i: nat)
    requires DistinctIds(students)
    requires i < |students|
    requires CalculateMultiplier(students[i], gift) == MaxMultiplierOf(students, gift)
    ensures students[i] in TopStudents(students, gift)
  {
    var m := MultipliersOf(students, gift);
    var keys := AscendingKeys(m.Keys);
    var mx := MaxMultiplierOf(students, gift);
    LookupDistinct(students, i);
    MultipliersOfAt(students, gift, i);
    assert students[i].id in keys;
    MatchingStudentIncluded(keys, m, mx, students, students[i].id);
  }

  /** An Id of a listed student is a tied key. */
  lemma TopIdSound(students: seq<Student>, gift: Gift, t: StudentId)
    requires DistinctIds(students)
    requires t in IdsOfList(TopStudents(students, gift))
    ensures t in TiedIds(MultipliersOf(students, gift), MaxMultiplierOf(students, gift))
  {
    var list := TopStudents(students, gift);
    var q :| 0 <= q < |list| && IdsOfList(list)[q] == t;
    TopStudentsSound(students, gift, list[q]);
    var idx :| 0 <= idx < |students| && students[idx] == list[q];
    TopIsTied(students, gift, idx);
  }

  /** A tied key is the Id of a listed student. */
  lemma TopIdComplete(students: seq<Student>, gift: Gift, t: StudentId)
    requires DistinctIds(students)
    requires t in TiedIds(MultipliersOf(students, gift), MaxMultiplierOf(students, gift))
    ensures t in IdsOfList(TopStudents(students, gift))
  {
    var list := TopStudents(students, gift);
    var idx := TiedIndex(students, gift, t);
    TopStudentsComplete(students, gift, idx);
    var q :| 0 <= q < |list| && list[q] == students[idx];
    assert IdsOfList(list)[q] == t;
  }

  /** The Ids of the listed students are the tied keys, in ascending order. */
  lemma TopStudentsIds(students: seq<Student>, gift: Gift)
    requires DistinctIds(students)
    ensures StrictlyAscending(IdsOfList(TopStudents(students, gift)))
    ensures Elements(IdsOfList(TopStudents(students, gift)))
         == TiedIds(MultipliersOf(students, gift), MaxMultiplierOf(students, gift))
  {
    var m := MultipliersOf(students, gift);
    var mx := MaxMultiplierOf(students, gift);
    MatchingStudentsAscending(AscendingKeys(m.Keys), m, mx, students);
    TopIdsAreTied(students, gift);
  }

  lemma TopIdsAreTied(students: seq<Student>, gift: Gift)
    requires DistinctIds(students)
    ensures Elements(IdsOfList(TopStudents(students, gift)))
         == TiedIds(MultipliersOf(students, gift), MaxMultiplierOf(students, gift))
  {
    var tied := TiedIds(MultipliersOf(students, gift), MaxMultiplierOf(students, gift));
    var ids := IdsOfList(TopStudents(students, gift));
    forall t | t in Elements(ids) ensures t in tied {
      TopIdSound(students, gift, t);
    }
    forall t | t in tied ensures t in Elements(ids) {
      TopIdComplete(students, gift, t);
    }
    SetsEqual(Elements(ids), tied);
  }

  lemma SetsEqual<T>(x: set<T>, y: set<T>)
    requires forall t :: t in x ==> t in y
    requires forall t :: t in y ==> t in x
    ensures x == y
  {
  }

  /**
   * A shared entry lists exactly the selected students at the best multiplier, in ascending
   * Id order, as many as the tie count.
   */
  lemma SharedEntryMeaning(students: seq<Student>, gift: Gift)
    requires DistinctIds(students)
    ensures var a := GiftAnalysisOf(students, gift);
      var e := SharedEntryOf(a, students);
      && e.gift == gift && e.multiplier == a.maxMultiplier
      && (forall s :: s in e.students <==> s in students && CalculateMultiplier(s, gift) == a.maxMultiplier)
      && StrictlyAscending(IdsOfList(e.students))
      && |e.students| == a.competitionCount
  {
    var list := TopStudents(students, gift);
    var mx := MaxMultiplierOf(students, gift);
    forall s ensures s in list <==> s in students && CalculateMultiplier(s, gift) == mx {
      if s in list {
        TopStudentsSound(students, gift, s);
      }
      if s in students && CalculateMultiplier(s, gift) == mx {
        var i :| 0 <= i < |students| && students[i] == s;
        TopStudentsComplete(students, gift, i);
      }
    }
    TopStudentsIds(students, gift);
    AscendingCardinality(IdsOfList(list));
  }

  // ---------------------------------------------------------------------------------------
  // The sections of the result

  /** The records of the gifts, looked up by gift. */
  lemma AnalysesMembers<T>(students: seq<Student>, gifts: seq<Gift>, keep: GiftAnalysis -> bool,
                           f: GiftAnalysis -> T, x: T)
    ensures x in Select(AnalysesOf(students, gifts), keep, f) <==>
      exists i :: 0 <= i < |gifts| && keep(GiftAnalysisOf(students, gifts[i])) && f(GiftAnalysisOf(students, gifts[i])) == x
  {
    var analyses := AnalysesOf(students, gifts);
    SelectMembers(analyses, keep, f);
    assert forall i :: 0 <= i < |gifts| ==> analyses[i] == GiftAnalysisOf(students, gifts[i]);
  }

  /** The `tailor` section holds exactly the SR gifts no selected student likes. */
  lemma TailorContents(students: seq<Student>, gifts: seq<Gift>, collate: (string, string) -> int)
    ensures forall g :: g in ResultOf(students, gifts, collate).tailor <==>
      g in gifts && g.rarity == "SR" && LikedByNobody(students, g)
  {
    var analyses := AnalysesOf(students, gifts);
    SortByMembers(TailorOf(analyses), NameOrder(collate));
    forall g ensures g in TailorOf(analyses) <==> g in gifts && g.rarity == "SR" && LikedByNobody(students, g) {
      AnalysesMembers(students, gifts, IsTailor, GiftOf, g);
      JunkMeaning(students, g);
    }
  }

  /** The `unchi` section holds exactly the SSR gifts no selected student likes, blacklist excepted. */
  lemma UnchiContents(students: seq<Student>, gifts: seq<Gift>, collate: (string, string) -> int)
    ensures forall g :: g in ResultOf(students, gifts, collate).unchi <==>
      g in gifts && g.rarity == "SSR" && LikedByNobody(students, g) && g.name !in SsrBlacklist
  {
    var analyses := AnalysesOf(students, gifts);
    SortByMembers(UnchiOf(analyses), NameOrder(collate));
    forall g ensures g in UnchiOf(analyses) <==>
      g in gifts && g.rarity == "SSR" && LikedByNobody(students, g) && g.name !in SsrBlacklist
    {
      AnalysesMembers(students, gifts, IsUnchi, GiftOf, g);
      JunkMeaning(students, g);
    }
  }

  /** Both junk sections are in name order under the collator. */
  lemma JunkSorted(students: seq<Student>, gifts: seq<Gift>, collate: (string, string) -> int)
    requires ValidCollator(collate)
    ensures var t := ResultOf(students, gifts, collate).tailor;
      forall i, j :: 0 <= i < j < |t| ==> collate(t[i].name, t[j].name) <= 0
    ensures var u := ResultOf(students, gifts, collate).unchi;
      forall i, j :: 0 <= i < j < |u| ==> collate(u[i].name, u[j].name) <= 0
  {
    var analyses := AnalysesOf(students, gifts);
    NameOrderIsPreorder(collate);
    SortBySorted(TailorOf(analyses), NameOrder(collate));
    SortBySorted(UnchiOf(analyses), NameOrder(collate));
  }

  /** Selecting records by a condition that depends on the gift alone, looked up by gift. */
  lemma SelectByGift<T>(students: seq<Student>, gifts: seq<Gift>, keep: GiftAnalysis -> bool,
                        chosen: Gift -> bool, f: GiftAnalysis -> T, x: T)
    requires forall g :: g in gifts ==> (keep(GiftAnalysisOf(students, g)) <==> chosen(g))
    ensures x in Select(AnalysesOf(students, gifts), keep, f) <==>
      exists g :: g in gifts && chosen(g) && f(GiftAnalysisOf(students, g)) == x
  {
    AnalysesMembers(students, gifts, keep, f, x);
    if exists g :: g in gifts && chosen(g) && f(GiftAnalysisOf(students, g)) == x {
      var g :| g in gifts && chosen(g) && f(GiftAnalysisOf(students, g)) == x;
      var i :| 0 <= i < |gifts| && gifts[i] == g;
      assert keep(GiftAnalysisOf(students, gifts[i]));
    }
  }

  /** Whether two different students share the best multiplier of a gift. */
  function SharedGift(students: seq<Student>): Gift -> bool
  {
    (g: Gift) => SharedBy(students, g)
  }

  /** One candidate entry of `freeChoice`. */
  lemma FreeChoiceMember(students: seq<Student>, gifts: seq<Gift>, e: SharedEntry)
    requires DistinctIds(students)
    ensures e in FreeChoiceOf(AnalysesOf(students, gifts), students) <==>
      exists g :: g in gifts && SharedBy(students, g) && e == SharedEntryOf(GiftAnalysisOf(students, g), students)
  {
    forall g | g in gifts ensures IsFreeChoice(GiftAnalysisOf(students, g)) <==> SharedGift(students)(g) {
      SharedMeaning(students, g);
    }
    SelectByGift(students, gifts, IsFreeChoice, SharedGift(students), SharedEntryFor(students), e);
  }

  /** The `freeChoice` section holds one shared entry for every gift two students share. */
  lemma FreeChoiceContents(students: seq<Student>, gifts: seq<Gift>, collate: (string, string) -> int)
    requires DistinctIds(students)
    ensures forall e :: e in ResultOf(students, gifts, collate).freeChoice <==>
      exists g :: g in gifts && SharedBy(students, g) && e == SharedEntryOf(GiftAnalysisOf(students, g), students)
  {
    var selected := FreeChoiceOf(AnalysesOf(students, gifts), students);
    var f := ResultOf(students, gifts, collate).freeChoice;
    assert f == SortBy(selected, SharedOrder);
    SortByMembers(selected, SharedOrder);
    forall e ensures e in f <==>
      exists g :: g in gifts && SharedBy(students, g) && e == SharedEntryOf(GiftAnalysisOf(students, g), students)
    {
      assert e in f <==> e in selected;
      FreeChoiceMember(students, gifts, e);
    }
  }

  /**
   * Every shared entry lists exactly the students at its multiplier, which no student beats,
   * in ascending Id order; there are at least two of them.
   */
  lemma FreeChoiceEntries(students: seq<Student>, gifts: seq<Gift>, collate: (string, string) -> int)
    requires DistinctIds(students)
    ensures forall e :: e in ResultOf(students, gifts, collate).freeChoice ==>
      && e.gift in gifts && e.multiplier > 1
      && (forall s :: s in students ==> CalculateMultiplier(s, e.gift) <= e.multiplier)
      && (forall s :: s in e.students <==> s in students && CalculateMultiplier(s, e.gift) == e.multiplier)
      && StrictlyAscending(IdsOfList(e.students))
      && |e.students| >= 2
  {
    FreeChoiceContents(students, gifts, collate);
    forall e | e in ResultOf(students, gifts, collate).freeChoice
      ensures e.gift in gifts && e.multiplier > 1
      ensures forall s :: s in students ==> CalculateMultiplier(s, e.gift) <= e.multiplier
      ensures forall s :: s in e.students <==> s in students && CalculateMultiplier(s, e.gift) == e.multiplier
      ensures StrictlyAscending(IdsOfList(e.students))
      ensures |e.students| >= 2
    {
      var g :| g in gifts && SharedBy(students, g) && e == SharedEntryOf(GiftAnalysisOf(students, g), students);
      SharedMeaning(students, g);
      SharedEntryMeaning(students, g);
    }
  }

  /**
   * `freeChoice` is ordered by multiplier, then by number of students, then by rarity, each
   * descending.
   */
  lemma FreeChoiceSorted(students: seq<Student>, gifts: seq<Gift>, collate: (string, string) -> int)
    ensures var f := ResultOf(students, gifts, collate).freeChoice;
      forall i, j :: 0 <= i < j < |f| ==>
        || f[i].multiplier > f[j].multiplier
        || (f[i].multiplier == f[j].multiplier && |f[i].students| > |f[j].students|)
        || (f[i].multiplier == f[j].multiplier && |f[i].students| == |f[j].students| &&
            RarityOrder(f[i].gift.rarity) >= RarityOrder(f[j].gift.rarity))
  {
    SharedOrderIsPreorder();
    SortBySorted(FreeChoiceOf(AnalysesOf(students, gifts), students), SharedOrder);
  }

  /** With a gift exclusive to a student, the best multiplier is that student's. */
  lemma ExclusiveMax(students: seq<Student>, gift: Gift, i: nat)
    requires i < |students| && ExclusiveTo(students, gift, i)
    ensures MaxMultiplierOf(students, gift) == CalculateMultiplier(students[i], gift)
  {
    var w :| 0 <= w < |students| && CalculateMultiplier(students[w], gift) == MaxMultiplierOf(students, gift);
    assert CalculateMultiplier(students[i], gift) <= MaxMultiplierOf(students, gift);
    assert w == i;
  }

  /** Whether a gift is exclusive to student `i`. */
  function ExclusiveGift(students: seq<Student>, i: nat): Gift -> bool
  {
    (g: Gift) => i < |students| && ExclusiveTo(students, g, i)
  }

  /** One candidate entry of a student's exclusive list, before sorting. */
  lemma OptimalGiftMember(students: seq<Student>, gifts: seq<Gift>, i: nat, e: GiftEntry)
    requires DistinctIds(students)
    requires i < |students|
    ensures e in OptimalGiftsFor(AnalysesOf(students, gifts), students[i].id) <==>
      exists g :: g in gifts && ExclusiveTo(students, g, i) && e == GiftEntry(g, CalculateMultiplier(students[i], g))
  {
    var id := students[i].id;
    forall g | g in gifts ensures OptimalFor(id)(GiftAnalysisOf(students, g)) <==> ExclusiveGift(students, i)(g) {
      ExclusiveMeaning(students, g, i);
    }
    SelectByGift(students, gifts, OptimalFor(id), ExclusiveGift(students, i), EntryOf, e);
    if e in OptimalGiftsFor(AnalysesOf(students, gifts), id) {
      var g :| g in gifts && ExclusiveGift(students, i)(g) && EntryOf(GiftAnalysisOf(students, g)) == e;
      ExclusiveMax(students, g, i);
    }
    if exists g :: g in gifts && ExclusiveTo(students, g, i) && e == GiftEntry(g, CalculateMultiplier(students[i], g)) {
      var g :| g in gifts && ExclusiveTo(students, g, i) && e == GiftEntry(g, CalculateMultiplier(students[i], g));
      ExclusiveMax(students, g, i);
      assert EntryOf(GiftAnalysisOf(students, g)) == e;
    }
  }

  /** A student has an entry in `optimal` exactly when some gift is exclusive to it. */
  lemma OptimalKeys(students: seq<Student>, gifts: seq<Gift>, collate: (string, string) -> int)
    requires DistinctIds(students)
    ensures var o := ResultOf(students, gifts, collate).optimal;
      && (forall id :: id in o ==> id in IdsOf(students))
      && (forall i :: 0 <= i < |students| ==>
            (students[i].id in o <==> exists g :: g in gifts && ExclusiveTo(students, g, i)))
  {
    var analyses := AnalysesOf(students, gifts);
    var o := OptimalSectionOf(analyses, students);
    assert ResultOf(students, gifts, collate).optimal == o;
    forall i | 0 <= i < |students|
      ensures students[i].id in o <==> exists g :: g in gifts && ExclusiveTo(students, g, i)
    {
      assert students[i].id in IdsOf(students);
      var list := OptimalGiftsFor(analyses, students[i].id);
      assert students[i].id in o <==> list != [];
      if list != [] {
        OptimalGiftMember(students, gifts, i, list[0]);
      }
      if exists g :: g in gifts && ExclusiveTo(students, g, i) {
        var g :| g in gifts && ExclusiveTo(students, g, i);
        OptimalGiftMember(students, gifts, i, GiftEntry(g, CalculateMultiplier(students[i], g)));
      }
    }
  }

  /** The entry of a listed student, before it is read for its gifts. */
  lemma OptimalEntry(students: seq<Student>, gifts: seq<Gift>, collate: (string, string) -> int, i: nat)
    requires DistinctIds(students)
    requires i < |students|
    requires students[i].id in ResultOf(students, gifts, collate).optimal
    ensures ResultOf(students, gifts, collate).optimal[students[i].id]
         == StudentGifts(students[i], SortBy(OptimalGiftsFor(AnalysesOf(students, gifts), students[i].id), OptimalOrder))
  {
    LookupDistinct(students, i);
  }

  /** A sorted exclusive list holds exactly the student's exclusive gifts. */
  lemma SortedExclusiveMembers(students: seq<Student>, gifts: seq<Gift>, i: nat)
    requires DistinctIds(students)
    requires i < |students|
    ensures forall e :: e in SortBy(OptimalGiftsFor(AnalysesOf(students, gifts), students[i].id), OptimalOrder) <==>
      exists g :: g in gifts && ExclusiveTo(students, g, i) && e == GiftEntry(g, CalculateMultiplier(students[i], g))
  {
    var selected := OptimalGiftsFor(AnalysesOf(students, gifts), students[i].id);
    SortByMembers(selected, OptimalOrder);
    forall e ensures e in SortBy(selected, OptimalOrder) <==>
      exists g :: g in gifts && ExclusiveTo(students, g, i) && e == GiftEntry(g, CalculateMultiplier(students[i], g))
    {
      assert e in SortBy(selected, OptimalOrder) <==> e in selected;
      OptimalGiftMember(students, gifts, i, e);
    }
  }

  /**
   * The entry of a listed student names that student and holds exactly its exclusive gifts,
   * each with its multiplier.
   */
  lemma OptimalLists(students: seq<Student>, gifts: seq<Gift>, collate: (string, string) -> int, i: nat)
    requires DistinctIds(students)
    requires i < |students|
    requires students[i].id in ResultOf(students, gifts, collate).optimal
    ensures var entry := ResultOf(students, gifts, collate).optimal[students[i].id];
      && entry.student == students[i]
      && forall e :: e in entry.gifts <==>
           exists g :: g in gifts && ExclusiveTo(students, g, i) && e == GiftEntry(g, CalculateMultiplier(students[i], g))
  {
    OptimalEntry(students, gifts, collate, i);
    SortedExclusiveMembers(students, gifts, i);
  }

  /** Every exclusive list is ordered by multiplier, then by rarity, both descending. */
  lemma OptimalSorted(students: seq<Student>, gifts: seq<Gift>, collate: (string, string) -> int)
    ensures var o := ResultOf(students, gifts, collate).optimal;
      forall id, p, q :: id in o && 0 <= p < q < |o[id].gifts| ==>
        || o[id].gifts[p].multiplier > o[id].gifts[q].multiplier
        || (o[id].gifts[p].multiplier == o[id].gifts[q].multiplier &&
            RarityOrder(o[id].gifts[p].gift.rarity) >= RarityOrder(o[id].gifts[q].gift.rarity))
  {
    var analyses := AnalysesOf(students, gifts);
    OptimalSectionShape(analyses, students, ResultOf(students, gifts, collate).optimal);
  }

  // ---------------------------------------------------------------------------------------
  // Where a gift ends up

  /** `gift` is in some student's exclusive list. */
  predicate ListedExclusive(r: AnalysisResult, gift: Gift)
  {
    exists id, e :: id in r.optimal && e in r.optimal[id].gifts && e.gift == gift
  }

  /** `gift` has a shared entry. */
  predicate ListedShared(r: AnalysisResult, gift: Gift)
  {
    exists e :: e in r.freeChoice && e.gift == gift
  }

  /** `gift` is listed as junk. */
  predicate ListedJunk(r: AnalysisResult, gift: Gift)
  {
    gift in r.tailor || gift in r.unchi
  }

  /** A gift in an exclusive list is exclusive to that list's student. */
  lemma ExclusiveListed(students: seq<Student>, gifts: seq<Gift>, collate: (string, string) -> int,
                        id: StudentId, e: GiftEntry)
    requires DistinctIds(students)
    requires id in ResultOf(students, gifts, collate).optimal
    requires e in ResultOf(students, gifts, collate).optimal[id].gifts
    ensures exists i :: 0 <= i < |students| && students[i].id == id && ExclusiveTo(students, e.gift, i)
  {
    OptimalKeys(students, gifts, collate);
    var i :| 0 <= i < |students| && students[i].id == id;
    OptimalLists(students, gifts, collate, i);
    var g :| g in gifts && ExclusiveTo(students, g, i) && e == GiftEntry(g, CalculateMultiplier(students[i], g));
  }

  /** A gift exclusive to a student is in that student's exclusive list. */
  lemma ExclusiveIsListed(students: seq<Student>, gifts: seq<Gift>, collate: (string, string) -> int,
                          gift: Gift, i: nat)
    requires DistinctIds(students)
    requires gift in gifts
    requires i < |students| && ExclusiveTo(students, gift, i)
    ensures students[i].id in ResultOf(students, gifts, collate).optimal
    ensures GiftEntry(gift, CalculateMultiplier(students[i], gift))
         in ResultOf(students, gifts, collate).optimal[students[i].id].gifts
  {
    OptimalKeys(students, gifts, collate);
    OptimalLists(students, gifts, collate, i);
  }

  /** A gift is in an exclusive list exactly when it is exclusive to some student. */
  lemma ExclusivePlacement(students: seq<Student>, gifts: seq<Gift>, collate: (string, string) -> int, gift: Gift)
    requires DistinctIds(students)
    requires gift in gifts
    ensures ListedExclusive(ResultOf(students, gifts, collate), gift) <==>
      exists i :: 0 <= i < |students| && ExclusiveTo(students, gift, i)
  {
    var o := ResultOf(students, gifts, collate).optimal;
    if ListedExclusive(ResultOf(students, gifts, collate), gift) {
      var id, e :| id in o && e in o[id].gifts && e.gift == gift;
      ExclusiveListed(students, gifts, collate, id, e);
    }
    if exists i :: 0 <= i < |students| && ExclusiveTo(students, gift, i) {
      var i :| 0 <= i < |students| && ExclusiveTo(students, gift, i);
      ExclusiveIsListed(students, gifts, collate, gift, i);
    }
  }

  /** A gift has a shared entry exactly when two different students share its best multiplier. */
  lemma SharedPlacement(students: seq<Student>, gifts: seq<Gift>, collate: (string, string) -> int, gift: Gift)
    requires DistinctIds(students)
    requires gift in gifts
    ensures ListedShared(ResultOf(students, gifts, collate), gift) <==> SharedBy(students, gift)
  {
    var f := ResultOf(students, gifts, collate).freeChoice;
    FreeChoiceContents(students, gifts, collate);
    if ListedShared(ResultOf(students, gifts, collate), gift) {
      var e :| e in f && e.gift == gift;
      var g :| g in gifts && SharedBy(students, g) && e == SharedEntryOf(GiftAnalysisOf(students, g), students);
      assert g == gift;
    }
    if SharedBy(students, gift) {
      assert SharedEntryOf(GiftAnalysisOf(students, gift), students) in f;
    }
  }

  /**
   * Every gift lands in at most one section. A gift some student likes is either exclusive
   * to one student or shared; a gift nobody likes is junk when it is SR, or SSR and not
   * blacklisted, and is listed nowhere otherwise.
   */
  lemma GiftPlacement(students: seq<Student>, gifts: seq<Gift>, collate: (string, string) -> int, gift: Gift)
    requires DistinctIds(students)
    requires gift in gifts
    ensures var r := ResultOf(students, gifts, collate);
      && !(ListedExclusive(r, gift) && ListedShared(r, gift))
      && !(ListedExclusive(r, gift) && ListedJunk(r, gift))
      && !(ListedShared(r, gift) && ListedJunk(r, gift))
      && !(gift in r.tailor && gift in r.unchi)
      && (LikedByNobody(students, gift) || ListedExclusive(r, gift) || ListedShared(r, gift))
      && (LikedByNobody(students, gift) ==> !ListedExclusive(r, gift) && !ListedShared(r, gift))
      && (ListedJunk(r, gift) <==>
            (LikedByNobody(students, gift) &&
             (gift.rarity == "SR" || (gift.rarity == "SSR" && gift.name !in SsrBlacklist))))
  {
    ExclusivePlacement(students, gifts, collate, gift);
    SharedPlacement(students, gifts, collate, gift);
    TailorContents(students, gifts, collate);
    UnchiContents(students, gifts, collate);
    GiftTrichotomy(students, gift);
  }

  /**
   * For one gift, exactly one holds: it is exclusive to one student, two students share its
   * best multiplier, or nobody likes it.
   */
  lemma GiftTrichotomy(students: seq<Student>, gift: Gift)
    requires DistinctIds(students)
    ensures var exclusive := exists i :: 0 <= i < |students| && ExclusiveTo(students, gift, i);
      && (exclusive || SharedBy(students, gift) || LikedByNobody(students, gift))
      && !(exclusive && SharedBy(students, gift))
      && !(exclusive && LikedByNobody(students, gift))
      && !(SharedBy(students, gift) && LikedByNobody(students, gift))
  {
    var a := GiftAnalysisOf(students, gift);
    JunkMeaning(students, gift);
    SharedMeaning(students, gift);
    if !LikedByNobody(students, gift) && !SharedBy(students, gift) {
      GiftSummary(students, gift);
      assert IsOptimal(a);
      SoleTiedId(a, students);
      var t :| TiedIds(a.multipliers, a.maxMultiplier) == {t};
      var i := TiedIndex(students, gift, t);
      ExclusiveSufficient(students, gift, i);
    }
    if exists i :: 0 <= i < |students| && ExclusiveTo(students, gift, i) {
      var i :| 0 <= i < |students| && ExclusiveTo(students, gift, i);
      ExclusiveNecessary(students, gift, i);
    }
  }
}
