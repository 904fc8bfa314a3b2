/**
 * StudentManager: the roster list and its two indexes, updated in place by
 * load, add, deleteByName and the two sorts. The file a load reads is passed
 * in as its content; save returns the lines it would write.
 */
module Roster {
  import opened Wrappers
  import opened Text
  import opened Numbers
  import opened Records
  import opened FileUtil
  import opened Sorting
  import opened RosterIndex

  /** add's test: name, email and course not blank after trimming, and marks present. */
  predicate Acceptable(s: Student): (r: bool)
    ensures r <==> !IsBlank(s.name) && !IsBlank(s.email) && !IsBlank(s.course) && s.marks.Some?
  {
    TrimEmptyIffBlank(s.name);
    TrimEmptyIffBlank(s.email);
    TrimEmptyIffBlank(s.course);
    Trim(s.name) != [] && Trim(s.email) != [] && Trim(s.course) != [] && s.marks.Some?
  }

  /** Every record a load produces would also pass add's test. */
  lemma WellFormedIsAcceptable(s: Student)
    requires WellFormed(s)
    ensures Acceptable(s)
  {
  }

  /**
   * The number comparingDouble(getMarks) compares. Absent marks never reach a
   * sort: add refuses them and the decoder never produces them (the source
   * would throw on unboxing); 0 stands in so that the order is total.
   */
  function MarksValue(s: Student): real {
    if s.marks.Some? then Value(s.marks.value) else 0.0
  }

  /** comparingDouble(getMarks), as "compare(a, b) <= 0". */
  predicate MarksAscending(a: Student, b: Student): (r: bool)
    ensures a.marks.Some? && b.marks.Some? ==> (r <==> Value(a.marks.value) <= Value(b.marks.value))
  {
    MarksValue(a) <= MarksValue(b)
  }

  /** comparingDouble(getMarks).reversed(): compare(a, b) <= 0 exactly when b's marks are at most a's. */
  predicate MarksDescending(a: Student, b: Student): (r: bool)
    ensures r <==> MarksAscending(b, a)
  {
    MarksValue(b) <= MarksValue(a)
  }

  /** comparing(getName, CASE_INSENSITIVE_ORDER): the names compared ignoring case. */
  predicate NameOrder(a: Student, b: Student): (r: bool)
    ensures r <==> NoCaseLe(a.name, b.name)
    ensures EqualsIgnoreCase(a.name, b.name) ==> r
  {
    NoCaseTie(a.name, b.name);
    NoCaseLe(a.name, b.name)
  }

  /** The three comparators are total preorders, so List.sort accepts them. */
  lemma ComparatorsArePreorders()
    ensures TotalPreorder(MarksAscending)
    ensures TotalPreorder(MarksDescending)
    ensures TotalPreorder(NameOrder)
  {
    NoCaseLeTotalPreorder();
  }

  /**
   * sortByMarks(true) then sortByMarks(false) lists the students in exactly
   * the reverse order of the first sort, provided no two students have equal
   * marks.
   */
  lemma SortByMarksReverses(s: seq<Student>)
    requires forall a, b :: a in s && b in s && MarksValue(a) == MarksValue(b) ==> a == b
    ensures SortBy(SortBy(s, MarksAscending), MarksDescending) == Reverse(SortBy(s, MarksAscending))
  {
    ComparatorsArePreorders();
    OppositeSortReverses(s, MarksAscending, MarksDescending);
  }

  /**
   * With equal marks the reversal fails: the sort is stable, so two students
   * of equal marks keep the order of the ascending sort in the descending one.
   */
  lemma SortByMarksTieKeepsOrder()
    ensures var a := Student(Some(1), "Asha", "asha@uni.edu", "CS", Some(Decimal(885, 1)));
      var b := Student(Some(2), "Ben", "ben@uni.edu", "CS", Some(Decimal(885, 1)));
      var up := SortBy([a, b], MarksAscending);
      up == [a, b] && SortBy(up, MarksDescending) == [a, b] && Reverse(up) == [b, a] && a != b
  {
    var a := Student(Some(1), "Asha", "asha@uni.edu", "CS", Some(Decimal(885, 1)));
    var b := Student(Some(2), "Ben", "ben@uni.edu", "CS", Some(Decimal(885, 1)));
    assert [a, b][..1] == [a];
    assert [a][..0] == [];
    assert SortBy([a], MarksAscending) == [a];
    assert SortBy([a, b], MarksAscending) == Insert(b, [a], MarksAscending) == [a, b];
    assert SortBy([a], MarksDescending) == [a];
    assert SortBy([a, b], MarksDescending) == Insert(b, [a], MarksDescending) == [a, b];
  }

  class StudentManager {
    var students: seq<Student>
    var byName: map<string, seq<Student>>
    var byRoll: map<Option<Int32>, Student>

    /** The indexes agree with the list, and every listed student passes add's test. */
    ghost predicate Valid()
      reads this
    {
      Indexed(students, byName, byRoll) && forall s :: s in students ==> Acceptable(s)
    }

    constructor()
      ensures Valid()
      ensures students == [] && byName == map[] && byRoll == map[]
    {
      students := [];
      byName := map[];
      byRoll := map[];
    }

    /** load: the list and indexes cleared, the file's records listed, then each indexed in list order. */
    method Load(file: Option<seq<string>>)
      modifies this
      ensures Valid()
      ensures students == if file.None? then [] else DecodeAll(file.value)
      ensures byName == NameIndex(students) && byRoll == RollIndex(students)
    {
      students := [];
      byName := map[];
      byRoll := map[];
      var list := ReadStudents(file);
      students := list;
      assert list[..|list|] == list;
      for i := 0 to |list|
        invariant students == list
        invariant byName == NameIndex(list[..i]) && byRoll == RollIndex(list[..i])
      {
        IndexNext(list, i);
        Index(list[i]);
      }
      LoadIndexed(students);
      forall s | s in students
        ensures Acceptable(s)
      {
        DecodeAllWellFormed(file.value, s);
      }
    }

    /** save: the lines written are the list's records, one toCsv line each, in list order. */
    method Save() returns (lines: seq<string>)
      ensures lines == EncodeAll(students)
    {
      lines := WriteStudents(students);
    }

    /** index: byRoll maps the roll number to s, and s joins the end of its key's bucket. */
    method Index(s: Student)
      modifies this
      ensures students == old(students)
      ensures byName == AddToName(old(byName), s) && byRoll == AddToRoll(old(byRoll), s)
    {
      byRoll := byRoll[s.rollNo := s];
      var key := Lower(s.name);
      var bucket := if key in byName then byName[key] else [];
      byName := byName[key := bucket + [s]];
    }

    /** add: refused (nothing changes) unless s passes the test; otherwise appended and indexed. */
    method Add(s: Student) returns (ok: bool)
      requires Valid()
      modifies this
      ensures Valid()
      ensures ok == Acceptable(s)
      ensures ok ==> students == old(students) + [s]
      ensures ok ==> byName == AddToName(old(byName), s) && byRoll == AddToRoll(old(byRoll), s)
      ensures !ok ==> students == old(students) && byName == old(byName) && byRoll == old(byRoll)
    {
      if Trim(s.name) == [] {
        return false;
      }
      if Trim(s.email) == [] {
        return false;
      }
      if Trim(s.course) == [] {
        return false;
      }
      if s.marks.None? {
        return false;
      }
      IndexPreserves(students, byName, byRoll, s);
      students := students + [s];
      Index(s);
      ok := true;
    }

    /**
     * searchByName: no name or an unknown key gives an empty list; otherwise
     * a copy of the key's bucket, which holds exactly the students whose name
     * equals the given one ignoring case.
     */
    method SearchByName(name: Option<string>) returns (res: seq<Student>)
      requires Valid()
      ensures res == Lookup(byName, name)
      ensures name.None? ==> res == []
      ensures name.Some? ==> multiset(res) == multiset(Matching(students, Lower(name.value)))
      ensures name.Some? ==> forall s :: s in res <==> s in students && EqualsIgnoreCase(s.name, name.value)
    {
      if name.None? {
        return [];
      }
      var key := Lower(name.value);
      if key !in byName {
        res := [];
      } else {
        res := byName[key];
      }
      LookupMatches(students, byName, byRoll, name.value);
      forall s
        ensures s in res <==> s in students && EqualsIgnoreCase(s.name, name.value)
      {
        LookupFinds(students, byName, byRoll, name.value, s);
      }
    }

    /**
     * deleteByName: when the key has students, each of them is removed from
     * the list, the bucket is dropped, and every byRoll entry whose student's
     * name equals the given one ignoring case is dropped; otherwise nothing changes.
     */
    method DeleteByName(name: string) returns (changed: bool)
      requires Valid()
      modifies this
      ensures Valid()
      ensures changed == (Lower(name) in old(byName))
      ensures changed ==> students == NotMatching(old(students), Lower(name))
      ensures changed ==> byName == old(byName) - {Lower(name)} && byRoll == DropByName(old(byRoll), name)
      ensures !changed ==> students == old(students) && byName == old(byName) && byRoll == old(byRoll)
    {
      var key := Lower(name);
      if key !in byName || byName[key] == [] {
        return false;
      }
      DeletePreserves(students, byName, byRoll, name);
      NotMatchingMembers(students, key);
      RemoveEach(byName[key], key);
      changed := true;
      byName := byName - {key};
      DropRollsNamed(name);
    }

    /** The first loop of deleteByName: each student of the bucket removed from the list with List.remove. */
    method RemoveEach(bucket: seq<Student>, key: string)
      requires multiset(bucket) == multiset(Matching(students, key))
      modifies this
      ensures students == NotMatching(old(students), key)
      ensures byName == old(byName) && byRoll == old(byRoll)
    {
      var list := students;
      assert bucket[0..] == bucket;
      for i := 0 to |bucket|
        invariant unchanged(this)
        invariant NotMatching(list, key) == NotMatching(students, key)
        invariant multiset(Matching(list, key)) == multiset(bucket[i..])
      {
        RemoveStep(list, key, bucket, i);
        list := RemoveFirst(list, bucket[i]);
      }
      assert bucket[|bucket|..] == [];
      assert |Matching(list, key)| == |multiset(Matching(list, key))| == 0;
      NoneMatching(list, key);
      students := list;
    }

    /** The second loop of deleteByName: every byRoll entry whose student's name equals name ignoring case removed. */
    method DropRollsNamed(name: string)
      modifies this
      ensures byRoll == DropByName(old(byRoll), name)
      ensures students == old(students) && byName == old(byName)
    {
      ghost var br0 := byRoll;
      var pending := byRoll.Keys;
      while pending != {}
        invariant pending <= br0.Keys
        invariant students == old(students) && byName == old(byName)
        invariant forall n :: n in byRoll <==> n in br0 && (n in pending || !EqualsIgnoreCase(br0[n].name, name))
        invariant forall n :: n in byRoll ==> byRoll[n] == br0[n]
        decreases |pending|
      {
        var n :| n in pending;
        if EqualsIgnoreCase(byRoll[n].name, name) {
          byRoll := byRoll - {n};
        }
        pending := pending - {n};
      }
      assert byRoll == DropByName(br0, name);
    }

    /** sortByMarks: the list stably sorted by marks, ascending or descending; the indexes are untouched. */
    method SortByMarks(ascending: bool)
      requires Valid()
      modifies this
      ensures Valid()
      ensures var cmp := if ascending then MarksAscending else MarksDescending;
        students == SortBy(old(students), cmp) && Sorted(students, cmp)
      ensures multiset(students) == multiset(old(students))
      ensures byName == old(byName) && byRoll == old(byRoll)
    {
      var cmp := if ascending then MarksAscending else MarksDescending;
      ComparatorsArePreorders();
      SortBySorted(students, cmp);
      SortByPermutes(students, cmp);
      ReorderPreserves(students, SortBy(students, cmp), byName, byRoll);
      ReorderKeepsAcceptable(students, SortBy(students, cmp));
      students := SortBy(students, cmp);
    }

    /** sortByName: the list stably sorted by name ignoring case; the indexes are untouched. */
    method SortByName()
      requires Valid()
      modifies this
      ensures Valid()
      ensures students == SortBy(old(students), NameOrder) && Sorted(students, NameOrder)
      ensures multiset(students) == multiset(old(students))
      ensures byName == old(byName) && byRoll == old(byRoll)
    {
      ComparatorsArePreorders();
      SortBySorted(students, NameOrder);
      SortByPermutes(students, NameOrder);
      ReorderPreserves(students, SortBy(students, NameOrder), byName, byRoll);
      ReorderKeepsAcceptable(students, SortBy(students, NameOrder));
      students := SortBy(students, NameOrder);
    }

    /** getStudents: a copy of the list, in its current order. */
    method GetStudents() returns (list: seq<Student>)
      ensures list == students
    {
      list := students;
    }
  }

  lemma ReorderKeepsAcceptable(st: seq<Student>, st': seq<Student>)
    requires (forall s :: s in st ==> Acceptable(s)) && multiset(st') == multiset(st)
    ensures forall s :: s in st' ==> Acceptable(s)
  {
    forall s | s in st'
      ensures Acceptable(s)
    {
      assert s in multiset(st);
    }
  }
}
