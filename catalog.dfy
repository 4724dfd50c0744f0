/**
 * The data manager: it shapes the two downloaded tables into student and gift records, keeps
 * them as module state, and answers the lookups the interface makes.
 *
 * A JSON value is modelled by the fields the loader looks at, each `None` when it is absent
 * or `null`. JavaScript truthiness is written out: an Id is falsy when it is missing or 0, a
 * name or icon when it is missing or empty, a tag list only when it is missing.
 */
module Catalog {
  import opened Records
  import opened Sorting
  import opened ObjectKeys
  import opened Sections

  /** A student entry of the students table, as downloaded. */
  datatype RawStudent = RawStudent(
    id: Option<Key>,
    name: Option<string>,
    favorItemTags: Option<seq<Tag>>,
    favorItemUniqueTags: Option<seq<Tag>>)

  /** An item entry of the items table, as downloaded. */
  datatype RawItem = RawItem(
    category: Option<string>,
    id: Option<nat>,
    name: Option<string>,
    rarity: Option<string>,
    tags: Option<seq<Tag>>,
    icon: Option<string>)

  /** `x || []` for a tag list. */
  function OrEmpty(tags: Option<seq<Tag>>): seq<Tag>
  {
    if tags.Some? then tags.value else []
  }

  predicate TruthyId(id: Option<nat>)
  {
    id.Some? && id.value != 0
  }

  predicate TruthyText(s: Option<string>)
  {
    s.Some? && s.value != ""
  }

  // ---------------------------------------------------------------------------------------
  // processStudents

  /** The guard of `processStudents`: Id, Name and FavorItemTags are all truthy. */
  predicate KeepsStudent(s: RawStudent)
  {
    TruthyId(s.id) && TruthyText(s.name) && s.favorItemTags.Some?
  }

  /** The record `processStudents` stores for a kept entry. */
  function ShapeStudent(s: RawStudent): (r: Student)
    requires KeepsStudent(s)
  {
    Student(s.id.value, s.name.value, s.favorItemTags.value, OrEmpty(s.favorItemUniqueTags))
  }

  /** What `processStudents` returns: the kept entries, shaped, under their original keys. */
  function ProcessedStudents(raw: map<Key, RawStudent>): map<Key, Student>
  {
    map k | k in raw && KeepsStudent(raw[k]) :: ShapeStudent(raw[k])
  }

  /** The result of `processStudents` once it has visited the entries `keys`, in this order. */
  function StudentsVisited(raw: map<Key, RawStudent>, keys: seq<Key>): (m: map<Key, Student>)
  {
    if keys == [] then map[]
    else
      var m := StudentsVisited(raw, keys[..|keys| - 1]);
      var k := keys[|keys| - 1];
      if k in raw && KeepsStudent(raw[k]) then m[k := ShapeStudent(raw[k])] else m
  }

  /** Visiting one more entry adds it exactly when it is kept. */
  lemma StudentsVisitedStep(raw: map<Key, RawStudent>, keys: seq<Key>, i: nat)
    requires i < |keys| && keys[i] in raw
    ensures StudentsVisited(raw, keys[..i + 1]) ==
      if KeepsStudent(raw[keys[i]]) then StudentsVisited(raw, keys[..i])[keys[i] := ShapeStudent(raw[keys[i]])]
      else StudentsVisited(raw, keys[..i])
  {
    assert keys[..i + 1][..i] == keys[..i];
  }

  /** Having visited `keys`, exactly the kept entries among them are stored. */
  lemma {:induction false} StudentsVisitedKept(raw: map<Key, RawStudent>, keys: seq<Key>)
    requires forall i :: 0 <= i < |keys| ==> keys[i] in raw
    ensures forall k :: k in StudentsVisited(raw, keys) <==> k in keys && KeepsStudent(raw[k])
    ensures forall k :: k in StudentsVisited(raw, keys) ==> StudentsVisited(raw, keys)[k] == ShapeStudent(raw[k])
  {
    if keys != [] {
      var pre := keys[..|keys| - 1];
      StudentsVisitedKept(raw, pre);
      assert forall k :: k in keys <==> k in pre || k == keys[|keys| - 1];
    }
  }

  /** Having visited every entry, the result is that of `processStudents`. */
  lemma StudentsVisitedAll(raw: map<Key, RawStudent>, keys: seq<Key>)
    requires forall i :: 0 <= i < |keys| ==> keys[i] in raw
    requires forall k :: k in raw ==> k in keys
    ensures StudentsVisited(raw, keys) == ProcessedStudents(raw)
  {
    StudentsVisitedKept(raw, keys);
  }

  /** A loaded student: a non-zero Id and a non-empty name. */
  predicate ValidStudent(s: Student)
  {
    s.id != 0 && s.name != ""
  }

  /**
   * An entry is kept exactly when its Id, Name and FavorItemTags are truthy; it keeps its key,
   * its Id, name and tags, and a missing FavorItemUniqueTags becomes the empty list.
   */
  lemma ProcessedStudentsMeaning(raw: map<Key, RawStudent>, k: Key)
    ensures k in ProcessedStudents(raw) <==>
      k in raw && raw[k].id.Some? && raw[k].id.value != 0 && raw[k].name.Some? &&
      raw[k].name.value != "" && raw[k].favorItemTags.Some?
    ensures k in ProcessedStudents(raw) ==>
      var s := ProcessedStudents(raw)[k];
      && Some(s.id) == raw[k].id && Some(s.name) == raw[k].name
      && Some(s.favorItemTags) == raw[k].favorItemTags
      && (raw[k].favorItemUniqueTags.None? ==> s.favorItemUniqueTags == [])
      && (raw[k].favorItemUniqueTags.Some? ==> s.favorItemUniqueTags == raw[k].favorItemUniqueTags.value)
      && ValidStudent(s)
  {
  }

  /** A loaded student, written back as a table entry. */
  function StudentEntryOf(s: Student): RawStudent
  {
    RawStudent(Some(s.id), Some(s.name), Some(s.favorItemTags), Some(s.favorItemUniqueTags))
  }

  /** Shaping is idempotent: a shaped table, written back, is kept whole and unchanged. */
  lemma ProcessStudentsIdempotent(raw: map<Key, RawStudent>)
    ensures var p := ProcessedStudents(raw);
      ProcessedStudents(map k | k in p :: StudentEntryOf(p[k])) == p
  {
    var p := ProcessedStudents(raw);
    var back := map k | k in p :: StudentEntryOf(p[k]);
    forall k | k in p ensures KeepsStudent(back[k]) && ShapeStudent(back[k]) == p[k] {
      ProcessedStudentsMeaning(raw, k);
    }
  }

  /** `processStudents`: visits the entries in key order and stores each kept one. */
  method ProcessStudents(raw: map<Key, RawStudent>) returns (processed: map<Key, Student>)
    ensures processed == ProcessedStudents(raw)
  {
    var keys := AscendingKeys(raw.Keys);
    processed := map[];
    for i := 0 to |keys|
      invariant processed == StudentsVisited(raw, keys[..i])
    {
      var k := keys[i];
      StudentsVisitedStep(raw, keys, i);
      if KeepsStudent(raw[k]) {
        processed := processed[k := ShapeStudent(raw[k])];
      }
    }
    assert keys[..|keys|] == keys;
    StudentsVisitedAll(raw, keys);
  }

  // ---------------------------------------------------------------------------------------
  // processGiftItems

  /** The first guard of `processGiftItems`: the item is of the "Favor" category. */
  predicate IsFavor(item: RawItem)
  {
    item.category == Some("Favor")
  }

  /** The second guard of `processGiftItems`: Id, Name, Tags and Icon are truthy. */
  predicate HasGiftFields(item: RawItem)
  {
    TruthyId(item.id) && TruthyText(item.name) && item.tags.Some? && TruthyText(item.icon)
  }

  /** The entries `processGiftItems` keeps: both guards pass. */
  predicate KeepsItem(item: RawItem)
  {
    IsFavor(item) && HasGiftFields(item)
  }

  /** The record `processGiftItems` stores for a kept entry; a falsy Rarity becomes "N". */
  function ShapeGift(item: RawItem): (g: Gift)
    requires KeepsItem(item)
  {
    Gift(item.id.value, item.name.value,
         if TruthyText(item.rarity) then item.rarity.value else "N",
         item.tags.value, item.icon.value)
  }

  /** What `processGiftItems` returns: the kept entries, shaped, under their original keys. */
  function ProcessedGifts(raw: map<Key, RawItem>): map<Key, Gift>
  {
    map k | k in raw && KeepsItem(raw[k]) :: ShapeGift(raw[k])
  }

  /** The result of `processGiftItems` once it has visited the entries `keys`, in this order. */
  function GiftsVisited(raw: map<Key, RawItem>, keys: seq<Key>): (m: map<Key, Gift>)
  {
    if keys == [] then map[]
    else
      var m := GiftsVisited(raw, keys[..|keys| - 1]);
      var k := keys[|keys| - 1];
      if k in raw && KeepsItem(raw[k]) then m[k := ShapeGift(raw[k])] else m
  }

  /** Visiting one more entry adds it exactly when it is kept. */
  lemma GiftsVisitedStep(raw: map<Key, RawItem>, keys: seq<Key>, i: nat)
    requires i < |keys| && keys[i] in raw
    ensures GiftsVisited(raw, keys[..i + 1]) ==
      if KeepsItem(raw[keys[i]]) then GiftsVisited(raw, keys[..i])[keys[i] := ShapeGift(raw[keys[i]])]
      else GiftsVisited(raw, keys[..i])
  {
    assert keys[..i + 1][..i] == keys[..i];
  }

  /** Having visited `keys`, exactly the kept entries among them are stored. */
  lemma {:induction false} GiftsVisitedKept(raw: map<Key, RawItem>, keys: seq<Key>)
    requires forall i :: 0 <= i < |keys| ==> keys[i] in raw
    ensures forall k :: k in GiftsVisited(raw, keys) <==> k in keys && KeepsItem(raw[k])
    ensures forall k :: k in GiftsVisited(raw, keys) ==> GiftsVisited(raw, keys)[k] == ShapeGift(raw[k])
  {
    if keys != [] {
      var pre := keys[..|keys| - 1];
      GiftsVisitedKept(raw, pre);
      assert forall k :: k in keys <==> k in pre || k == keys[|keys| - 1];
    }
  }

  /** Having visited every entry, the result is that of `processGiftItems`. */
  lemma GiftsVisitedAll(raw: map<Key, RawItem>, keys: seq<Key>)
    requires forall i :: 0 <= i < |keys| ==> keys[i] in raw
    requires forall k :: k in raw ==> k in keys
    ensures GiftsVisited(raw, keys) == ProcessedGifts(raw)
  {
    GiftsVisitedKept(raw, keys);
  }

  /** A loaded gift: non-zero Id, and non-empty name, rarity and icon. */
  predicate ValidGift(g: Gift)
  {
    g.id != 0 && g.name != "" && g.rarity != "" && g.icon != ""
  }

  /**
   * An entry is kept exactly when it is a "Favor" item with truthy Id, Name, Tags and Icon;
   * it keeps its key and fields, and a missing or empty Rarity becomes "N".
   */
  lemma ProcessedGiftsMeaning(raw: map<Key, RawItem>, k: Key)
    ensures k in ProcessedGifts(raw) <==>
      k in raw && raw[k].category == Some("Favor") && raw[k].id.Some? && raw[k].id.value != 0 &&
      raw[k].name.Some? && raw[k].name.value != "" && raw[k].tags.Some? &&
      raw[k].icon.Some? && raw[k].icon.value != ""
    ensures k in ProcessedGifts(raw) ==>
      var g := ProcessedGifts(raw)[k];
      && Some(g.id) == raw[k].id && Some(g.name) == raw[k].name
      && Some(g.tags) == raw[k].tags && Some(g.icon) == raw[k].icon
      && (raw[k].rarity == None || raw[k].rarity == Some("") ==> g.rarity == "N")
      && (raw[k].rarity != None && raw[k].rarity != Some("") ==> Some(g.rarity) == raw[k].rarity)
      && ValidGift(g)
  {
  }

  /** A loaded gift, written back as a "Favor" entry of the items table. */
  function ItemEntryOf(g: Gift): RawItem
  {
    RawItem(Some("Favor"), Some(g.id), Some(g.name), Some(g.rarity), Some(g.tags), Some(g.icon))
  }

  /** Shaping is idempotent: a shaped items table, written back, is kept whole and unchanged. */
  lemma ProcessGiftItemsIdempotent(raw: map<Key, RawItem>)
    ensures var p := ProcessedGifts(raw);
      ProcessedGifts(map k | k in p :: ItemEntryOf(p[k])) == p
  {
    var p := ProcessedGifts(raw);
    var back := map k | k in p :: ItemEntryOf(p[k]);
    forall k | k in p ensures KeepsItem(back[k]) && ShapeGift(back[k]) == p[k] {
      ProcessedGiftsMeaning(raw, k);
    }
  }

  /** `processGiftItems`: visits the entries in key order and stores each kept one. */
  method ProcessGiftItems(raw: map<Key, RawItem>) returns (gifts: map<Key, Gift>)
    ensures gifts == ProcessedGifts(raw)
  {
    var keys := AscendingKeys(raw.Keys);
    gifts := map[];
    for i := 0 to |keys|
      invariant gifts == GiftsVisited(raw, keys[..i])
    {
      var k := keys[i];
      var item := raw[k];
      GiftsVisitedStep(raw, keys, i);
      if !IsFavor(item) {
        continue;
      }
      if !HasGiftFields(item) {
        continue;
      }
      gifts := gifts[k := ShapeGift(item)];
    }
    assert keys[..|keys|] == keys;
    GiftsVisitedAll(raw, keys);
  }

  // ---------------------------------------------------------------------------------------
  // The name de-duplication of getAllStudents

  /** The names of a list of students. */
  function NamesOf(s: seq<Student>): (r: set<string>)
    ensures forall n :: n in r <==> exists i :: 0 <= i < |s| && s[i].name == n
  {
    if s == [] then {}
    else
      var r := NamesOf(s[..|s| - 1]) + {s[|s| - 1].name};
      assert forall i :: 0 <= i < |s| - 1 ==> s[..|s| - 1][i] == s[i];
      r
  }

  /** The first student of the list with this name, if any. */
  function FirstNamed(s: seq<Student>, name: string): (r: Option<Student>)
    ensures r.Some? <==> name in NamesOf(s)
    ensures r.Some? ==> r.value in s && r.value.name == name
  {
    if s == [] then None
    else
      var f := FirstNamed(s[..|s| - 1], name);
      if f.Some? then f
      else if s[|s| - 1].name == name then Some(s[|s| - 1])
      else None
  }

  /**
   * What the `seen`-set filter of `getAllStudents` keeps: each student whose name no earlier
   * student has.
   */
  function FirstOfEachName(s: seq<Student>): (r: seq<Student>)
  {
    if s == [] then []
    else
      var p := FirstOfEachName(s[..|s| - 1]);
      if s[|s| - 1].name in NamesOf(s[..|s| - 1]) then p else p + [s[|s| - 1]]
  }

  /** Every student kept comes from the list. */
  lemma {:induction false} FirstOfEachNameFrom(s: seq<Student>)
    ensures forall x :: x in FirstOfEachName(s) ==> x in s
  {
    if s != [] {
      var pre := s[..|s| - 1];
      FirstOfEachNameFrom(pre);
      assert forall x :: x in pre ==> x in s;
    }
  }

  /** Every name of the list is kept. */
  lemma {:induction false} FirstOfEachNameNames(s: seq<Student>)
    ensures NamesOf(FirstOfEachName(s)) == NamesOf(s)
  {
    if s != [] {
      var pre := s[..|s| - 1];
      FirstOfEachNameNames(pre);
    }
  }

  /** No two students kept share a name. */
  lemma {:induction false} FirstOfEachNameDistinct(s: seq<Student>)
    ensures var r := FirstOfEachName(s);
      forall i, j :: 0 <= i < j < |r| ==> r[i].name != r[j].name
  {
    if s != [] {
      var pre := s[..|s| - 1];
      FirstOfEachNameDistinct(pre);
      FirstOfEachNameNames(pre);
    }
  }

  /** The student kept for a name is the first one of the list with that name. */
  lemma {:induction false} FirstOfEachNameFirst(s: seq<Student>)
    ensures forall x :: x in FirstOfEachName(s) ==> FirstNamed(s, x.name) == Some(x)
  {
    if s != [] {
      var pre := s[..|s| - 1];
      FirstOfEachNameFirst(pre);
      FirstOfEachNameNames(pre);
      forall x | x in FirstOfEachName(s) ensures FirstNamed(s, x.name) == Some(x) {
        if x in FirstOfEachName(pre) {
          assert x.name in NamesOf(pre);
        }
      }
    }
  }

  /** A list sorted by `le` stays sorted when only the first of each name is kept. */
  lemma {:induction false} FirstOfEachNameSorted(s: seq<Student>, le: (Student, Student) -> bool)
    requires SortedBy(s, le)
    ensures SortedBy(FirstOfEachName(s), le)
  {
    if s != [] {
      var n := |s| - 1;
      var pre := s[..n];
      assert SortedBy(pre, le);
      FirstOfEachNameSorted(pre, le);
      FirstOfEachNameFrom(pre);
      var p := FirstOfEachName(pre);
      assert forall h :: 0 <= h < n ==> le(pre[h], s[n]);
      assert forall x :: x in p ==> le(x, s[n]);
    }
  }

  /** The `seen`-set filter: one pass, remembering the names met so far. */
  method DedupByName(students: seq<Student>) returns (r: seq<Student>)
    ensures r == FirstOfEachName(students)
  {
    var seen: set<string> := {};
    r := [];
    for i := 0 to |students|
      invariant r == FirstOfEachName(students[..i])
      invariant seen == NamesOf(students[..i])
    {
      var student := students[i];
      assert students[..i + 1][..i] == students[..i];
      if student.name !in seen {
        seen := seen + {student.name};
        r := r + [student];
      }
    }
    assert students[..|students|] == students;
  }

  // ---------------------------------------------------------------------------------------
  // The getters

  /** `a.Name.localeCompare(b.Name, 'ja') <= 0` for students. */
  function StudentNameOrder(collate: (string, string) -> int): (Student, Student) -> bool
  {
    (a: Student, b: Student) => collate(a.name, b.name) <= 0
  }

  lemma StudentNameOrderIsPreorder(collate: (string, string) -> int)
    requires ValidCollator(collate)
    ensures TotalPreorder(StudentNameOrder(collate))
  {
    var le := StudentNameOrder(collate);
    forall x, y, z | le(x, y) && le(y, z) ensures le(x, z) {
      assert collate(x.name, y.name) <= 0 && collate(y.name, z.name) <= 0;
    }
    forall x, y ensures le(x, y) || le(y, x) {
      assert collate(x.name, y.name) <= 0 || collate(y.name, x.name) <= 0;
    }
  }

  /** The loaded students in the order `getAllStudents` sorts them, before de-duplication. */
  function SortedStudents(data: map<Key, Student>, collate: (string, string) -> int): seq<Student>
  {
    SortBy(Values(data), StudentNameOrder(collate))
  }

  /** What `getAllStudents` returns. */
  function AllStudentsOf(data: Option<map<Key, Student>>, collate: (string, string) -> int): seq<Student>
  {
    if data.None? then [] else FirstOfEachName(SortedStudents(data.value, collate))
  }

  /**
   * Before loading the list is empty. After it, the list is sorted by name, no two students
   * share a name, every name of the table occurs, every student is from the table, and the one
   * kept for a name is the first with that name in sorted order.
   */
  lemma AllStudentsMeaning(data: Option<map<Key, Student>>, collate: (string, string) -> int)
    requires ValidCollator(collate)
    ensures data.None? ==> AllStudentsOf(data, collate) == []
    ensures data.Some? ==>
      var r := AllStudentsOf(data, collate);
      && (forall i, j :: 0 <= i < j < |r| ==> collate(r[i].name, r[j].name) <= 0)
      && (forall i, j :: 0 <= i < j < |r| ==> r[i].name != r[j].name)
      && (forall x :: x in r ==> x in data.value.Values)
      && (forall k :: k in data.value ==> data.value[k].name in NamesOf(r))
      && (forall x :: x in r ==> FirstNamed(SortedStudents(data.value, collate), x.name) == Some(x))
  {
    if data.Some? {
      var s := SortedStudents(data.value, collate);
      AllStudentsSorted(data.value, collate);
      AllStudentsCover(data.value, collate);
      FirstOfEachNameDistinct(s);
      FirstOfEachNameFirst(s);
    }
  }

  /** The de-duplicated list is still sorted by name. */
  lemma AllStudentsSorted(data: map<Key, Student>, collate: (string, string) -> int)
    requires ValidCollator(collate)
    ensures var r := FirstOfEachName(SortedStudents(data, collate));
      forall i, j :: 0 <= i < j < |r| ==> collate(r[i].name, r[j].name) <= 0
  {
    var s := SortedStudents(data, collate);
    var r := FirstOfEachName(s);
    StudentNameOrderIsPreorder(collate);
    SortBySorted(Values(data), StudentNameOrder(collate));
    FirstOfEachNameSorted(s, StudentNameOrder(collate));
    forall i, j | 0 <= i < j < |r| ensures collate(r[i].name, r[j].name) <= 0 {
      assert StudentNameOrder(collate)(r[i], r[j]);
    }
  }

  /** The de-duplicated list holds students of the table only, and every name of the table. */
  lemma AllStudentsCover(data: map<Key, Student>, collate: (string, string) -> int)
    ensures var r := FirstOfEachName(SortedStudents(data, collate));
      && (forall x :: x in r ==> x in data.Values)
      && (forall k :: k in data ==> data[k].name in NamesOf(r))
  {
    var s := SortedStudents(data, collate);
    var r := FirstOfEachName(s);
    SortByMembers(Values(data), StudentNameOrder(collate));
    FirstOfEachNameNames(s);
    FirstOfEachNameFrom(s);
    forall k | k in data ensures data[k].name in NamesOf(r) {
      assert data[k] in s;
    }
  }

  /** A keyed read of a loaded table: `null` before loading, `undefined` for a missing key. */
  datatype Lookup<T> = Null | Undefined | Found(value: T)

  /** `table ? table[id] : null` */
  function LookupIn<T>(table: Option<map<Key, T>>, id: Key): (r: Lookup<T>)
    ensures table.None? <==> r.Null?
    ensures r.Found? <==> table.Some? && id in table.value
    ensures r.Found? ==> r.value == table.value[id]
  {
    if table.None? then Null
    else if id in table.value then Found(table.value[id])
    else Undefined
  }

  /** After loading, a key finds a student exactly when its table entry was kept. */
  lemma StudentLookupAfterLoad(raw: map<Key, RawStudent>, id: Key)
    ensures var r := LookupIn(Some(ProcessedStudents(raw)), id);
      && (r.Found? <==> id in raw && KeepsStudent(raw[id]))
      && (r.Found? ==> r.value == ShapeStudent(raw[id]) && ValidStudent(r.value))
      && (r.Undefined? <==> !(id in raw && KeepsStudent(raw[id])))
  {
  }

  /** After loading, a key finds a gift exactly when its item entry was kept. */
  lemma GiftLookupAfterLoad(raw: map<Key, RawItem>, id: Key)
    ensures var r := LookupIn(Some(ProcessedGifts(raw)), id);
      && (r.Found? <==> id in raw && KeepsItem(raw[id]))
      && (r.Found? ==> r.value == ShapeGift(raw[id]) && ValidGift(r.value))
      && (r.Undefined? <==> !(id in raw && KeepsItem(raw[id])))
  {
  }

  /** What `getAllGifts` returns: nothing before loading, then every gift in key order. */
  function AllGiftsOf(data: Option<map<Key, Gift>>): (r: seq<Gift>)
    ensures data.None? ==> r == []
    ensures data.Some? ==> |r| == |data.value.Keys| && forall g :: g in r <==> g in data.value.Values
    ensures data.Some? ==> forall i :: 0 <= i < |r| ==> r[i] == data.value[AscendingKeys(data.value.Keys)[i]]
  {
    if data.None? then [] else Values(data.value)
  }

  /** The state of the data manager: the two shaped tables and the raw items table. */
  class DataManager {
    var studentsData: Option<map<Key, Student>>
    var itemsData: Option<map<Key, RawItem>>
    var giftItems: Option<map<Key, Gift>>

    /** Nothing is loaded yet. */
    constructor()
      ensures studentsData == None && itemsData == None && giftItems == None
      ensures !IsDataLoaded()
    {
      studentsData := None;
      itemsData := None;
      giftItems := None;
    }

    /** `isDataLoaded` */
    predicate IsDataLoaded()
      reads this
      ensures IsDataLoaded() <==> forall id :: !GetStudent(id).Null? && !GetGift(id).Null?
    {
      assert GetStudent(0).Null? <==> studentsData.None?;
      assert GetGift(0).Null? <==> giftItems.None?;
      studentsData.Some? && giftItems.Some?
    }

    /** The assignments `fetchData` makes once both tables are downloaded and parsed. */
    method Load(studentsRaw: map<Key, RawStudent>, itemsRaw: map<Key, RawItem>)
      modifies this
      ensures studentsData == Some(ProcessedStudents(studentsRaw))
      ensures itemsData == Some(itemsRaw)
      ensures giftItems == Some(ProcessedGifts(itemsRaw))
      ensures IsDataLoaded()
    {
      var students := ProcessStudents(studentsRaw);
      studentsData := Some(students);
      itemsData := Some(itemsRaw);
      var gifts := ProcessGiftItems(itemsRaw);
      giftItems := Some(gifts);
    }

    /** `getStudent` */
    function GetStudent(id: Key): (r: Lookup<Student>)
      reads this
      ensures r.Null? <==> studentsData.None?
      ensures r.Found? <==> studentsData.Some? && id in studentsData.value
      ensures r.Found? ==> r.value == studentsData.value[id]
    {
      LookupIn(studentsData, id)
    }

    /** `getGift` */
    function GetGift(id: Key): (r: Lookup<Gift>)
      reads this
      ensures r.Null? <==> giftItems.None?
      ensures r.Found? <==> giftItems.Some? && id in giftItems.value
      ensures r.Found? ==> r.value == giftItems.value[id] && r.value in GetAllGifts()
    {
      LookupIn(giftItems, id)
    }

    /** `getAllGifts` */
    function GetAllGifts(): (r: seq<Gift>)
      reads this
      ensures giftItems.None? ==> r == []
      ensures giftItems.Some? ==> forall g :: g in r <==> g in giftItems.value.Values
    {
      AllGiftsOf(giftItems)
    }

    /** `getAllStudents`: sort by name, then keep the first of each name. */
    method GetAllStudents(collate: (string, string) -> int) returns (r: seq<Student>)
      ensures r == AllStudentsOf(studentsData, collate)
    {
      if studentsData.None? {
        return [];
      }
      var all := SortBy(Values(studentsData.value), StudentNameOrder(collate));
      r := DedupByName(all);
    }
  }
}
