/** calculateMultiplier: the affinity multiplier of one student for one gift. */
module Scoring {
  import opened Records

  /**
   * The number of entries of `studentTags` that occur in `itemTags`: the length of
   * `studentTags.filter(tag => itemTags.includes(tag))`. An entry is counted once per
   * position, so a tag listed twice by the student counts twice.
   */
  function CountMatches(studentTags: seq<Tag>, itemTags: seq<Tag>): (n: nat)
    ensures n <= |studentTags|
  {
    if studentTags == [] then 0
    else
      var last := studentTags[|studentTags| - 1];
      CountMatches(studentTags[..|studentTags| - 1], itemTags) + (if last in itemTags then 1 else 0)
  }

  /** Reference definition: the positions of `studentTags` holding a tag of the gift. */
  function MatchPositions(studentTags: seq<Tag>, itemTags: seq<Tag>): set<nat>
  {
    set i: nat | i < |studentTags| && studentTags[i] in itemTags
  }

  /** The tags a student is scored with: favorite tags followed by unique favorite tags. */
  function AllStudentTags(student: Student): seq<Tag>
  {
    student.favorItemTags + student.favorItemUniqueTags
  }

  /** The step from a match count to a multiplier. */
  function StepMultiplier(totalMatches: nat): (m: int)
    ensures m == (if totalMatches < 3 then totalMatches else 3) + 1
  {
    if totalMatches >= 3 then 4
    else if totalMatches >= 2 then 3
    else if totalMatches == 1 then 2
    else 1
  }

  /** calculateMultiplier(student, gift). */
  function CalculateMultiplier(student: Student, gift: Gift): (m: int)
    ensures 1 <= m <= 4
  {
    StepMultiplier(CountMatches(AllStudentTags(student), gift.tags))
  }

  /**
   * The multiplier is a step function of the number of positions of the student's combined
   * tag list that hold one of the gift's tags: 0, 1, 2 and 3 or more give 1, 2, 3 and 4.
   */
  lemma MultiplierSteps(student: Student, gift: Gift)
    ensures var m := CalculateMultiplier(student, gift);
      var n := |MatchPositions(AllStudentTags(student), gift.tags)|;
      && (m == 4 <==> n >= 3)
      && (m == 3 <==> n == 2)
      && (m == 2 <==> n == 1)
      && (m == 1 <==> n == 0)
  {
    CountMatchesIsPositions(AllStudentTags(student), gift.tags);
  }

  lemma {:induction false} CountMatchesIsPositions(studentTags: seq<Tag>, itemTags: seq<Tag>)
    ensures CountMatches(studentTags, itemTags) == |MatchPositions(studentTags, itemTags)|
  {
    if studentTags != [] {
      var n := |studentTags| - 1;
      var p := studentTags[..n];
      CountMatchesIsPositions(p, itemTags);
      var before := MatchPositions(p, itemTags);
      var after := MatchPositions(studentTags, itemTags);
      if studentTags[n] in itemTags {
        assert after == before + {n};
        assert n !in before;
      } else {
        assert after == before;
      }
    }
  }

  /** Counting over a concatenation adds the two counts. */
  lemma {:induction false} CountMatchesAppend(a: seq<Tag>, b: seq<Tag>, itemTags: seq<Tag>)
    ensures CountMatches(a + b, itemTags) == CountMatches(a, itemTags) + CountMatches(b, itemTags)
  {
    if b != [] {
      var n := |b| - 1;
      assert (a + b)[..|a + b| - 1] == a + b[..n];
      CountMatchesAppend(a, b[..n], itemTags);
    } else {
      assert a + b == a;
    }
  }

  /**
   * The match count of a student is the favorite-tag count plus the unique-tag count, so a
   * tag that a student lists in both lists is counted twice.
   */
  lemma StudentMatchesSplit(student: Student, gift: Gift)
    ensures CountMatches(AllStudentTags(student), gift.tags)
         == CountMatches(student.favorItemTags, gift.tags) + CountMatches(student.favorItemUniqueTags, gift.tags)
  {
    CountMatchesAppend(student.favorItemTags, student.favorItemUniqueTags, gift.tags);
  }

  /**
   * Only the set of the gift's tags matters: listing a gift tag twice does not count a
   * match twice, and a larger set of gift tags never lowers the count.
   */
  lemma {:induction false} CountMatchesMonotoneInItemTags(studentTags: seq<Tag>, itemTags: seq<Tag>, moreTags: seq<Tag>)
    requires forall t :: t in itemTags ==> t in moreTags
    ensures CountMatches(studentTags, itemTags) <= CountMatches(studentTags, moreTags)
  {
    if studentTags != [] {
      CountMatchesMonotoneInItemTags(studentTags[..|studentTags| - 1], itemTags, moreTags);
    }
  }

  lemma CountMatchesDependsOnTagSet(studentTags: seq<Tag>, itemTags: seq<Tag>, sameTags: seq<Tag>)
    requires forall t :: t in itemTags <==> t in sameTags
    ensures CountMatches(studentTags, itemTags) == CountMatches(studentTags, sameTags)
  {
    CountMatchesMonotoneInItemTags(studentTags, itemTags, sameTags);
    CountMatchesMonotoneInItemTags(studentTags, sameTags, itemTags);
  }

  /** The multiplier never drops as the match count grows. */
  lemma StepMultiplierMonotone(n: nat, m: nat)
    requires n <= m
    ensures StepMultiplier(n) <= StepMultiplier(m)
  {
  }

  /** Adding a tag to a student's favorite tags never lowers the multiplier. */
  lemma MultiplierMonotoneInStudentTags(student: Student, gift: Gift, extra: Tag)
    ensures CalculateMultiplier(student, gift)
         <= CalculateMultiplier(student.(favorItemTags := student.favorItemTags + [extra]), gift)
  {
    var more := student.(favorItemTags := student.favorItemTags + [extra]);
    StudentMatchesSplit(student, gift);
    StudentMatchesSplit(more, gift);
    assert (student.favorItemTags + [extra])[..|student.favorItemTags|] == student.favorItemTags;
    StepMultiplierMonotone(CountMatches(AllStudentTags(student), gift.tags), CountMatches(AllStudentTags(more), gift.tags));
  }

  /** Adding tags to a gift never lowers any student's multiplier for it. */
  lemma MultiplierMonotoneInGiftTags(student: Student, gift: Gift, extra: seq<Tag>)
    ensures CalculateMultiplier(student, gift) <= CalculateMultiplier(student, gift.(tags := gift.tags + extra))
  {
    var more := gift.(tags := gift.tags + extra);
    CountMatchesMonotoneInItemTags(AllStudentTags(student), gift.tags, more.tags);
    StepMultiplierMonotone(CountMatches(AllStudentTags(student), gift.tags), CountMatches(AllStudentTags(student), more.tags));
  }
}
