/** The records the gift analyzer works on, as the catalog loader hands them over. */
module Records {
  import opened ObjectKeys

  datatype Option<+T> = None | Some(value: T)

  /** Student Ids are the keys of JavaScript objects; they are array indices. */
  type StudentId = Key

  /** A preference tag is an opaque token compared with strict equality. */
  type Tag = string

  /** A student (character) after loading: a missing tag list is already the empty list. */
  datatype Student = Student(
    id: StudentId,
    name: string,
    favorItemTags: seq<Tag>,
    favorItemUniqueTags: seq<Tag>)

  /** A gift (a "Favor" item) after loading. */
  datatype Gift = Gift(
    id: nat,
    name: string,
    rarity: string,
    tags: seq<Tag>,
    icon: string)

  /** The set of Ids of a list of students. */
  function IdsOf(students: seq<Student>): set<StudentId>
  {
    set i | 0 <= i < |students| :: students[i].id
  }

  /** No two students of the list share an Id (they come from a Set of Ids). */
  predicate DistinctIds(students: seq<Student>)
  {
    forall i, j :: 0 <= i < j < |students| ==> students[i].id != students[j].id
  }
}
