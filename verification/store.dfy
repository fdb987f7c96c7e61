/**
 The in-memory student store: the `students` array and the `nextId` counter
 that every request handler reads and writes.
 */
module Store {

  /** One stored student. */
  datatype Student = Student(id: int, name: string, age: int, grade: string, email: string)

  /** The whole server state: records in storage order plus the id to hand out next. */
  datatype Store = Store(students: seq<Student>, nextId: int)

  /** Some record carries the id. */
  ghost predicate HasId(s: seq<Student>, id: int) {
    exists k :: 0 <= k < |s| && s[k].id == id
  }

  /** No two records share an id. */
  ghost predicate DistinctIds(s: seq<Student>) {
    forall i, j :: 0 <= i < j < |s| ==> s[i].id != s[j].id
  }

  /** The store invariant: ids are pairwise distinct and all below the counter. */
  ghost predicate Valid(st: Store) {
    && DistinctIds(st.students)
    && forall k :: 0 <= k < |st.students| ==> st.students[k].id < st.nextId
  }

  /** The five records the server starts with, and the counter set past them. */
  function Seed(): (st: Store)
    ensures Valid(st)
    ensures |st.students| == 5 && st.nextId == 6
    ensures forall k :: 0 <= k < 5 ==> st.students[k].id == k + 1
  {
    Store([
      Student(1, "John Doe", 20, "A", "john@school.com"),
      Student(2, "Jane Smith", 21, "B", "jane@school.com"),
      Student(3, "Mike Johnson", 19, "A", "mike@school.com"),
      Student(4, "Sarah Wilson", 22, "C", "sarah@school.com"),
      Student(5, "Tom Brown", 18, "B", "tom@school.com")
    ], 6)
  }

  /** `Array.prototype.findIndex` on the id: the first position holding `id`, or -1. */
  function FindIndex(s: seq<Student>, id: int): (i: int)
    ensures -1 <= i < |s|
    ensures i == -1 <==> !HasId(s, id)
    ensures i >= 0 ==> s[i].id == id && forall k :: 0 <= k < i ==> s[k].id != id
  {
    if s == [] then -1
    else if s[0].id == id then 0
    else
      var j := FindIndex(s[1..], id);
      assert forall k :: 1 <= k < |s| ==> s[k] == s[1..][k - 1];
      if j == -1 then -1 else j + 1
  }

  /** `findIndex` returns a position exactly when it holds the id and no earlier one does. */
  lemma FindIndexFirst(s: seq<Student>, id: int, i: int)
    requires 0 <= i < |s| && s[i].id == id
    requires forall k :: 0 <= k < i ==> s[k].id != id
    ensures FindIndex(s, id) == i
  {
    assert HasId(s, id);
  }

  /** With distinct ids, the record at a position is the only one with its id. */
  lemma OnlyPosition(s: seq<Student>, i: int)
    requires DistinctIds(s) && 0 <= i < |s|
    ensures FindIndex(s, s[i].id) == i
  {
  }

  /** Splicing out position `i` removes exactly that record. */
  lemma RemoveAtMultiset(s: seq<Student>, i: int)
    requires 0 <= i < |s|
    ensures multiset(s[..i] + s[i + 1..]) + multiset{s[i]} == multiset(s)
  {
    assert s == s[..i] + [s[i]] + s[i + 1..];
  }

  /** Splicing out position `i` keeps ids distinct and leaves no record with the removed id. */
  lemma RemoveAtDistinct(s: seq<Student>, i: int)
    requires 0 <= i < |s|
    ensures DistinctIds(s) ==> DistinctIds(s[..i] + s[i + 1..]) && !HasId(s[..i] + s[i + 1..], s[i].id)
  {
    var rest := s[..i] + s[i + 1..];
    assert forall k :: 0 <= k < |rest| ==> rest[k] == s[if k < i then k else k + 1];
  }

  /** Appending a record whose id is the counter, and advancing the counter, keeps the invariant. */
  lemma AppendFreshKeepsValid(st: Store, x: Student)
    requires x.id == st.nextId
    ensures Valid(st) ==> Valid(Store(st.students + [x], st.nextId + 1))
  {
    var s := st.students + [x];
    assert forall k :: 0 <= k < |st.students| ==> s[k] == st.students[k];
  }

  /** Overwriting a position with a record of the same id keeps the invariant. */
  lemma ReplaceSameIdKeepsValid(st: Store, i: int, x: Student)
    requires 0 <= i < |st.students| && x.id == st.students[i].id
    ensures Valid(st) ==> Valid(Store(st.students[i := x], st.nextId))
  {
  }
}
