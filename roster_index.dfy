/**
 * The two indexes StudentManager keeps beside its list, as values: byName
 * maps a lower-cased name to the students of that name, byRoll maps a roll
 * number to the student last indexed under it. Indexed is the invariant the
 * manager's operations keep; the lemmas here are the facts its methods use.
 */
module RosterIndex {
  import opened Wrappers
  import opened Text
  import opened Numbers
  import opened Records

  /**
   * The byName key of a student: the name, lower-cased. It equals the name
   * ignoring case and is its own lower-case form, so every casing of a name
   * leads to the same key.
   */
  function Key(s: Student): (r: string)
    ensures |r| == |s.name| && EqualsIgnoreCase(r, s.name) && Lower(r) == r
  {
    var r := Lower(s.name);
    assert Lower(r) == r by {
      assert forall i :: 0 <= i < |r| ==> Lower(r)[i] == LowerChar(LowerChar(s.name[i])) == r[i];
    }
    r
  }

  /** The students of st whose key is k, in list order. */
  function Matching(st: seq<Student>, k: string): (r: seq<Student>)
  {
    if st == [] then []
    else (if Key(st[0]) == k then [st[0]] else []) + Matching(st[1..], k)
  }

  /** The students of st whose key is not k, in list order. */
  function NotMatching(st: seq<Student>, k: string): (r: seq<Student>)
  {
    if st == [] then []
    else (if Key(st[0]) != k then [st[0]] else []) + NotMatching(st[1..], k)
  }

  lemma {:induction false} MatchingMembers(st: seq<Student>, k: string)
    ensures forall s :: s in Matching(st, k) <==> s in st && Key(s) == k
  {
    if st != [] {
      MatchingMembers(st[1..], k);
      assert st == [st[0]] + st[1..];
    }
  }

  lemma {:induction false} NotMatchingMembers(st: seq<Student>, k: string)
    ensures forall s :: s in NotMatching(st, k) <==> s in st && Key(s) != k
  {
    if st != [] {
      NotMatchingMembers(st[1..], k);
      assert st == [st[0]] + st[1..];
    }
  }

  /** A key no listed student has matches nothing. */
  lemma NoMatches(st: seq<Student>, k: string)
    requires forall s :: s in st ==> Key(s) != k
    ensures Matching(st, k) == []
  {
    MatchingMembers(st, k);
    if Matching(st, k) != [] {
      assert Matching(st, k)[0] in Matching(st, k);
    }
  }

  /**
   * The indexes agree with the list: each byName bucket is non-empty and
   * holds exactly the students of its key (in some order), every student's
   * key has a bucket, and every byRoll entry is a listed student of that roll.
   */
  predicate Indexed(st: seq<Student>, bn: map<string, seq<Student>>, br: map<Option<Int32>, Student>) {
    BucketsExact(st, bn) && KeysCovered(st, bn) && RollsListed(st, br)
  }

  predicate BucketsExact(st: seq<Student>, bn: map<string, seq<Student>>) {
    forall k :: k in bn ==> bn[k] != [] && multiset(bn[k]) == multiset(Matching(st, k))
  }

  predicate KeysCovered(st: seq<Student>, bn: map<string, seq<Student>>) {
    forall s :: s in st ==> Key(s) in bn
  }

  predicate RollsListed(st: seq<Student>, br: map<Option<Int32>, Student>) {
    forall n :: n in br ==> br[n] in st && br[n].rollNo == n
  }

  // ------------------------------------------------------------ indexing

  /** index, on byName: the student appended to its key's bucket, the bucket created if absent. */
  function AddToName(bn: map<string, seq<Student>>, s: Student): (r: map<string, seq<Student>>)
    ensures r.Keys == bn.Keys + {Key(s)}
    ensures r[Key(s)] == (if Key(s) in bn then bn[Key(s)] else []) + [s]
    ensures forall k :: k in bn && k != Key(s) ==> r[k] == bn[k]
  {
    bn[Key(s) := (if Key(s) in bn then bn[Key(s)] else []) + [s]]
  }

  /** index, on byRoll: the student replaces whatever was stored under its roll number. */
  function AddToRoll(br: map<Option<Int32>, Student>, s: Student): (r: map<Option<Int32>, Student>)
    ensures r.Keys == br.Keys + {s.rollNo} && r[s.rollNo] == s
    ensures forall n :: n in br && n != s.rollNo ==> r[n] == br[n]
  {
    br[s.rollNo := s]
  }

  /** The byName index load builds: every student of st indexed in list order; its keys are the students' keys. */
  function NameIndex(st: seq<Student>): (r: map<string, seq<Student>>)
    ensures r.Keys == set s | s in st :: Key(s)
  {
    if st == [] then map[]
    else
      var init, last := st[..|st| - 1], st[|st| - 1];
      assert st == init + [last];
      AddToName(NameIndex(init), last)
  }

  /**
   * The byRoll index load builds: every student of st indexed in list order;
   * its keys are the students' roll numbers, each mapped to a student of that roll.
   */
  function RollIndex(st: seq<Student>): (r: map<Option<Int32>, Student>)
    ensures forall s :: s in st ==> s.rollNo in r
    ensures forall n :: n in r ==> r[n] in st && r[n].rollNo == n
  {
    if st == [] then map[]
    else
      var init, last := st[..|st| - 1], st[|st| - 1];
      assert st == init + [last];
      AddToRoll(RollIndex(init), last)
  }

  /** Loading one more student of the list indexes it after the ones before it. */
  lemma IndexNext(list: seq<Student>, i: nat)
    requires i < |list|
    ensures NameIndex(list[..i + 1]) == AddToName(NameIndex(list[..i]), list[i])
    ensures RollIndex(list[..i + 1]) == AddToRoll(RollIndex(list[..i]), list[i])
  {
    var st := list[..i + 1];
    assert st[..|st| - 1] == list[..i] && st[|st| - 1] == list[i];
  }

  lemma {:induction false} MatchingAppend(st: seq<Student>, s: Student, k: string)
    ensures Matching(st + [s], k) == Matching(st, k) + if Key(s) == k then [s] else []
  {
    if st == [] {
      assert st + [s] == [s];
      assert [s][1..] == [];
    } else {
      var head := if Key(st[0]) == k then [st[0]] else [];
      var tail := if Key(s) == k then [s] else [];
      assert (st + [s])[1..] == st[1..] + [s];
      assert Matching(st + [s], k) == head + Matching(st[1..] + [s], k);
      MatchingAppend(st[1..], s, k);
      assert head + (Matching(st[1..], k) + tail) == head + Matching(st[1..], k) + tail;
    }
  }

  /** Indexing a new student keeps the indexes in step with the list that gained it. */
  lemma IndexPreserves(st: seq<Student>, bn: map<string, seq<Student>>, br: map<Option<Int32>, Student>, s: Student)
    requires Indexed(st, bn, br)
    ensures Indexed(st + [s], AddToName(bn, s), AddToRoll(br, s))
  {
    IndexBuckets(st, bn, s);
    IndexKeys(st, bn, s);
    IndexRolls(st, br, s);
  }

  lemma IndexKeys(st: seq<Student>, bn: map<string, seq<Student>>, s: Student)
    requires KeysCovered(st, bn)
    ensures KeysCovered(st + [s], AddToName(bn, s))
  {
  }

  lemma IndexRolls(st: seq<Student>, br: map<Option<Int32>, Student>, s: Student)
    requires RollsListed(st, br)
    ensures RollsListed(st + [s], AddToRoll(br, s))
  {
  }

  lemma IndexBuckets(st: seq<Student>, bn: map<string, seq<Student>>, s: Student)
    requires BucketsExact(st, bn) && KeysCovered(st, bn)
    ensures BucketsExact(st + [s], AddToName(bn, s))
  {
    var bn' := AddToName(bn, s);
    forall k | k in bn'
      ensures bn'[k] != [] && multiset(bn'[k]) == multiset(Matching(st + [s], k))
    {
      MatchingAppend(st, s, k);
      if k == Key(s) {
        var old_ := if k in bn then bn[k] else [];
        if k !in bn {
          NoMatches(st, k);
        }
        assert multiset(old_) == multiset(Matching(st, k));
        assert bn'[k] == old_ + [s];
      } else {
        assert bn'[k] == bn[k];
      }
    }
  }

  /** Loading indexes every student: the indexes load builds agree with the loaded list. */
  lemma {:induction false} LoadIndexed(st: seq<Student>)
    ensures Indexed(st, NameIndex(st), RollIndex(st))
  {
    if st != [] {
      var init, last := st[..|st| - 1], st[|st| - 1];
      SplitLast(st);
      LoadIndexed(init);
      IndexPreserves(init, NameIndex(init), RollIndex(init), last);
    }
  }

  lemma SplitLast(st: seq<Student>)
    requires st != []
    ensures st[..|st| - 1] + [st[|st| - 1]] == st
  {
  }

  /** A key load did not index belongs to no loaded student. */
  lemma UnindexedMatchesNothing(st: seq<Student>, k: string)
    requires k !in NameIndex(st)
    ensures Matching(st, k) == []
  {
    LoadIndexed(st);
    NoMatches(st, k);
  }

  /** After a load each bucket lists its students in file order. */
  lemma {:induction false} LoadBucketsInOrder(st: seq<Student>, k: string)
    requires k in NameIndex(st)
    ensures NameIndex(st)[k] == Matching(st, k)
  {
    var init, last := st[..|st| - 1], st[|st| - 1];
    SplitLast(st);
    MatchingAppend(init, last, k);
    if k in NameIndex(init) {
      LoadBucketsInOrder(init, k);
    } else {
      UnindexedMatchesNothing(init, k);
    }
  }

  /** After a load a roll number is indexed exactly when some loaded student has it. */
  lemma {:induction false} LoadRollKeys(st: seq<Student>, n: Option<Int32>)
    ensures n in RollIndex(st) <==> exists i :: 0 <= i < |st| && st[i].rollNo == n
  {
    if st != [] {
      var init, last := st[..|st| - 1], st[|st| - 1];
      SplitLast(st);
      LoadRollKeys(init, n);
      if last.rollNo == n {
        assert st[|st| - 1].rollNo == n;
      } else {
        if i :| 0 <= i < |st| && st[i].rollNo == n {
          assert init[i] == st[i];
        }
        if i :| 0 <= i < |init| && init[i].rollNo == n {
          assert st[i] == init[i];
        }
      }
    }
  }

  /** After a load a roll number maps to the last loaded student that has it: later duplicates win. */
  lemma {:induction false} LoadRollLastWins(st: seq<Student>, n: Option<Int32>, i: nat)
    requires i < |st| && st[i].rollNo == n
    requires forall j :: i < j < |st| ==> st[j].rollNo != n
    ensures n in RollIndex(st) && RollIndex(st)[n] == st[i]
  {
    var init, last := st[..|st| - 1], st[|st| - 1];
    assert RollIndex(st) == AddToRoll(RollIndex(init), last);
    if i < |init| {
      assert init[i] == st[i];
      assert last.rollNo != n;
      LoadRollLastWins(init, n, i);
    }
  }

  // ------------------------------------------------------------- sorting

  lemma {:induction false} MatchingCount(st: seq<Student>, k: string, e: Student)
    ensures multiset(Matching(st, k))[e] == if Key(e) == k then multiset(st)[e] else 0
  {
    if st != [] {
      MatchingCount(st[1..], k, e);
      assert st == [st[0]] + st[1..];
    }
  }

  /** Reordering the list does not disturb the indexes: sorting keeps them valid. */
  lemma ReorderPreserves(st: seq<Student>, st': seq<Student>, bn: map<string, seq<Student>>, br: map<Option<Int32>, Student>)
    requires Indexed(st, bn, br) && multiset(st') == multiset(st)
    ensures Indexed(st', bn, br)
  {
    forall k | k in bn
      ensures multiset(bn[k]) == multiset(Matching(st', k))
    {
      forall e
        ensures multiset(Matching(st', k))[e] == multiset(Matching(st, k))[e]
      {
        MatchingCount(st, k, e);
        MatchingCount(st', k, e);
      }
    }
    forall s | s in st'
      ensures Key(s) in bn
    {
      assert s in multiset(st);
    }
    forall r | r in br
      ensures br[r] in st'
    {
      assert br[r] in multiset(st');
    }
  }

  // ------------------------------------------------------------ deleting

  /** List.remove(Object): the first occurrence of e taken out; no change when e is absent. */
  function RemoveFirst(st: seq<Student>, e: Student): (r: seq<Student>)
    ensures multiset(r) == multiset(st) - multiset{e}
    ensures e !in st ==> r == st
    ensures e in st ==> exists i :: FirstAt(st, e, i) && r == st[..i] + st[i + 1..]
  {
    if st == [] then []
    else if st[0] == e then
      RemovedAtHead(st, e);
      st[1..]
    else
      var rest := RemoveFirst(st[1..], e);
      RemovedBehindHead(st, e, rest);
      FirstBehindHead(st, e, rest);
      [st[0]] + rest
  }

  /** i is the position of the first occurrence of e in st. */
  predicate FirstAt(st: seq<Student>, e: Student, i: int) {
    0 <= i < |st| && st[i] == e && e !in st[..i]
  }

  /** When the head is e, dropping the head removes its first occurrence. */
  lemma RemovedAtHead(st: seq<Student>, e: Student)
    requires st != [] && st[0] == e
    ensures multiset(st[1..]) == multiset(st) - multiset{e}
    ensures FirstAt(st, e, 0) && st[1..] == st[..0] + st[0 + 1..]
  {
    assert st == [st[0]] + st[1..];
  }

  /** When the head is not e, removing e from the tail removes it from the whole. */
  lemma RemovedBehindHead(st: seq<Student>, e: Student, rest: seq<Student>)
    requires st != [] && st[0] != e
    requires multiset(rest) == multiset(st[1..]) - multiset{e}
    requires e !in st[1..] ==> rest == st[1..]
    ensures multiset([st[0]] + rest) == multiset(st) - multiset{e}
    ensures e !in st ==> [st[0]] + rest == st
  {
    assert st == [st[0]] + st[1..];
  }

  /** When the head is not e, its first occurrence lies one place further on than in the tail. */
  lemma FirstBehindHead(st: seq<Student>, e: Student, rest: seq<Student>)
    requires st != [] && st[0] != e
    requires e in st[1..] ==> exists i :: FirstAt(st[1..], e, i) && rest == st[1..][..i] + st[1..][i + 1..]
    ensures e in st ==> exists i :: FirstAt(st, e, i) && [st[0]] + rest == st[..i] + st[i + 1..]
  {
    if e in st {
      var h, t := st[0], st[1..];
      assert st == [h] + t;
      assert e in t;
      var j :| FirstAt(t, e, j) && rest == t[..j] + t[j + 1..];
      FirstShifts(h, t, e, j);
    }
  }

  lemma FirstShifts(h: Student, t: seq<Student>, e: Student, j: int)
    requires h != e && FirstAt(t, e, j)
    ensures FirstAt([h] + t, e, j + 1)
    ensures [h] + (t[..j] + t[j + 1..]) == ([h] + t)[..j + 1] + ([h] + t)[j + 1 + 1..]
  {
    var st := [h] + t;
    assert st[..j + 1] == [h] + t[..j];
    assert st[j + 1 + 1..] == t[j + 1..];
  }

  /** Removing a student of key k takes it out of the students of that key. */
  lemma {:induction false} RemoveFirstMatching(st: seq<Student>, e: Student, k: string)
    requires Key(e) == k
    ensures Matching(RemoveFirst(st, e), k) == RemoveFirst(Matching(st, k), e)
  {
    if st != [] {
      var m := Matching(st[1..], k);
      if st[0] == e {
        assert Matching(st, k) == [e] + m;
        assert ([e] + m)[1..] == m;
      } else {
        var r := RemoveFirst(st[1..], e);
        assert ([st[0]] + r)[1..] == r;
        assert RemoveFirst(st, e) == [st[0]] + r;
        RemoveFirstMatching(st[1..], e, k);
        if Key(st[0]) == k {
          assert ([st[0]] + m)[1..] == m;
          assert Matching(st, k) == [st[0]] + m;
          assert Matching([st[0]] + r, k) == [st[0]] + Matching(r, k);
        } else {
          assert Matching(st, k) == m;
          assert Matching([st[0]] + r, k) == Matching(r, k);
        }
      }
    }
  }

  /** Removing a student of key k leaves the students of other keys as they were. */
  lemma {:induction false} RemoveFirstNotMatching(st: seq<Student>, e: Student, k: string)
    requires Key(e) == k
    ensures NotMatching(RemoveFirst(st, e), k) == NotMatching(st, k)
  {
    if st != [] {
      var head := if Key(st[0]) != k then [st[0]] else [];
      var rest := NotMatching(st[1..], k);
      assert NotMatching(st, k) == head + rest;
      if st[0] == e {
        assert RemoveFirst(st, e) == st[1..];
        assert head + rest == rest;
      } else {
        var r := RemoveFirst(st[1..], e);
        assert RemoveFirst(st, e) == [st[0]] + r;
        assert ([st[0]] + r)[1..] == r;
        RemoveFirstNotMatching(st[1..], e, k);
        assert NotMatching([st[0]] + r, k) == head + NotMatching(r, k);
      }
    }
  }

  /** A list with no student of key k is all students not of key k. */
  lemma {:induction false} NoneMatching(st: seq<Student>, k: string)
    requires Matching(st, k) == []
    ensures NotMatching(st, k) == st
  {
    if st != [] {
      NoneMatching(st[1..], k);
      assert st == [st[0]] + st[1..];
    }
  }

  /**
   * One step of deleteByName's removal loop: taking out a student of the
   * bucket leaves the other keys' students alone and one fewer of its own.
   */
  lemma RemoveStep(st: seq<Student>, k: string, bucket: seq<Student>, i: nat)
    requires i < |bucket| && multiset(Matching(st, k)) == multiset(bucket[i..])
    ensures NotMatching(RemoveFirst(st, bucket[i]), k) == NotMatching(st, k)
    ensures multiset(Matching(RemoveFirst(st, bucket[i]), k)) == multiset(bucket[i + 1..])
  {
    BucketMemberKey(st, k, bucket, i);
    RemoveFirstNotMatching(st, bucket[i], k);
    RemoveFromBucket(st, k, bucket, i);
  }

  lemma BucketMemberKey(st: seq<Student>, k: string, bucket: seq<Student>, i: nat)
    requires i < |bucket| && multiset(Matching(st, k)) == multiset(bucket[i..])
    ensures Key(bucket[i]) == k
  {
    assert bucket[i] in bucket[i..];
    assert bucket[i] in multiset(Matching(st, k));
    MatchingMembers(st, k);
  }

  lemma RemoveFromBucket(st: seq<Student>, k: string, bucket: seq<Student>, i: nat)
    requires i < |bucket| && multiset(Matching(st, k)) == multiset(bucket[i..]) && Key(bucket[i]) == k
    ensures multiset(Matching(RemoveFirst(st, bucket[i]), k)) == multiset(bucket[i + 1..])
  {
    RemoveFirstMatching(st, bucket[i], k);
    DropHeadCount(bucket, i);
  }

  lemma DropHeadCount(bucket: seq<Student>, i: nat)
    requires i < |bucket|
    ensures multiset(bucket[i..]) - multiset{bucket[i]} == multiset(bucket[i + 1..])
  {
    assert bucket[i..] == [bucket[i]] + bucket[i + 1..];
  }

  /** The list deleteByName leaves, read through another key, is unchanged. */
  lemma {:induction false} MatchingNotMatching(st: seq<Student>, k: string, k': string)
    requires k' != k
    ensures Matching(NotMatching(st, k), k') == Matching(st, k')
  {
    if st != [] {
      var rest := NotMatching(st[1..], k);
      MatchingNotMatching(st[1..], k, k');
      if Key(st[0]) != k {
        assert NotMatching(st, k) == [st[0]] + rest;
        assert ([st[0]] + rest)[1..] == rest;
      } else {
        assert NotMatching(st, k) == [] + rest;
        assert [] + rest == rest;
        assert Matching(st, k') == [] + Matching(st[1..], k');
        assert [] + Matching(st[1..], k') == Matching(st[1..], k');
      }
    }
  }

  /** deleteByName's pass over byRoll: every entry whose student's name equals name ignoring case goes. */
  function DropByName(br: map<Option<Int32>, Student>, name: string): (r: map<Option<Int32>, Student>)
    ensures forall n :: n in r <==> n in br && !EqualsIgnoreCase(br[n].name, name)
    ensures forall n :: n in r ==> r[n] == br[n]
  {
    map n | n in br && !EqualsIgnoreCase(br[n].name, name) :: br[n]
  }

  /**
   * Although byRoll is cleaned by name rather than by the students removed,
   * the entries it loses are exactly those of the deleted students.
   */
  lemma DropByNameDropsDeleted(st: seq<Student>, br: map<Option<Int32>, Student>, name: string, n: Option<Int32>)
    requires RollsListed(st, br) && n in br
    ensures n in DropByName(br, name) <==> br[n] in NotMatching(st, Lower(name))
  {
    NotMatchingMembers(st, Lower(name));
  }

  /** Deleting the students of a key, its bucket and its byRoll entries keeps the indexes valid. */
  lemma DeletePreserves(st: seq<Student>, bn: map<string, seq<Student>>, br: map<Option<Int32>, Student>, name: string)
    requires Indexed(st, bn, br)
    ensures Indexed(NotMatching(st, Lower(name)), bn - {Lower(name)}, DropByName(br, name))
  {
    DeleteBuckets(st, bn, Lower(name));
    DeleteKeys(st, bn, Lower(name));
    DeleteRolls(st, br, name);
  }

  lemma DeleteBuckets(st: seq<Student>, bn: map<string, seq<Student>>, k: string)
    requires BucketsExact(st, bn)
    ensures BucketsExact(NotMatching(st, k), bn - {k})
  {
    forall k' | k' in bn - {k}
      ensures Matching(NotMatching(st, k), k') == Matching(st, k')
    {
      MatchingNotMatching(st, k, k');
    }
  }

  lemma DeleteKeys(st: seq<Student>, bn: map<string, seq<Student>>, k: string)
    requires KeysCovered(st, bn)
    ensures KeysCovered(NotMatching(st, k), bn - {k})
  {
    NotMatchingMembers(st, k);
  }

  lemma DeleteRolls(st: seq<Student>, br: map<Option<Int32>, Student>, name: string)
    requires RollsListed(st, br)
    ensures RollsListed(NotMatching(st, Lower(name)), DropByName(br, name))
  {
    forall n | n in DropByName(br, name)
      ensures DropByName(br, name)[n] in NotMatching(st, Lower(name))
    {
      DropByNameDropsDeleted(st, br, name, n);
    }
  }

  // ------------------------------------------------------------ searching

  /** What searchByName returns: no name or an unknown key gives the empty list, else a copy of the bucket. */
  function Lookup(bn: map<string, seq<Student>>, name: Option<string>): (r: seq<Student>)
    ensures name.None? ==> r == []
    ensures name.Some? ==> forall n :: EqualsIgnoreCase(n, name.value) ==> r == (if Lower(n) in bn then bn[Lower(n)] else [])
  {
    if name.None? || Lower(name.value) !in bn then [] else bn[Lower(name.value)]
  }

  /** Under the invariant, a search returns the students of the name's key, each as often as it is listed. */
  lemma LookupMatches(st: seq<Student>, bn: map<string, seq<Student>>, br: map<Option<Int32>, Student>, name: string)
    requires Indexed(st, bn, br)
    ensures multiset(Lookup(bn, Some(name))) == multiset(Matching(st, Lower(name)))
  {
    if Lower(name) !in bn {
      NoMatches(st, Lower(name));
    }
  }

  /** Under the invariant, a search finds exactly the listed students whose name equals the given one ignoring case. */
  lemma LookupFinds(st: seq<Student>, bn: map<string, seq<Student>>, br: map<Option<Int32>, Student>, name: string, s: Student)
    requires Indexed(st, bn, br)
    ensures s in Lookup(bn, Some(name)) <==> s in st && EqualsIgnoreCase(s.name, name)
  {
    LookupMatches(st, bn, br, name);
    MatchingMembers(st, Lower(name));
    assert s in Lookup(bn, Some(name)) <==> s in multiset(Lookup(bn, Some(name)));
    assert s in Matching(st, Lower(name)) <==> s in multiset(Matching(st, Lower(name)));
  }

  /** A student just indexed is found by a search for its name in any casing. */
  lemma AddedIsFound(bn: map<string, seq<Student>>, s: Student, name: string)
    requires EqualsIgnoreCase(name, s.name)
    ensures s in Lookup(AddToName(bn, s), Some(name))
  {
    var bucket := AddToName(bn, s)[Key(s)];
    assert bucket[|bucket| - 1] == s;
  }

  /** After a delete no listed student's name equals the deleted name ignoring case. */
  lemma DeletedNameIsGone(st: seq<Student>, name: string, s: Student)
    requires s in NotMatching(st, Lower(name))
    ensures s in st && !EqualsIgnoreCase(s.name, name)
  {
    NotMatchingMembers(st, Lower(name));
  }
}
