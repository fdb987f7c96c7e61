/**
 The logic of the six record routes, each taken out of its Express handler
 as a pure function of the store and the parsed path id, query or body. The
 read routes return their answer; the writing routes return the reply and the
 store afterwards. HTTP 400 and 404 are reply variants.
 */
module Handlers {
  import opened Wrappers
  import opened Text
  import opened Seqs
  import opened Store

  /** A parsed JSON request body; a field that is absent or null is `None`. */
  datatype Body = Body(name: Option<string>, age: Option<int>, grade: Option<string>, email: Option<string>)

  /** What a route answers. */
  datatype Reply =
    | Ok(student: Student)            // 200 with one record
    | Created(student: Student)       // 201 with the new record
    | Listed(students: seq<Student>)  // 200 with an array of records
    | BadRequest                      // 400 "All fields are required"
    | NotFound                        // 404 "Student not found"
  {
    function Status(): int {
      match this
      case Ok(_) => 200
      case Created(_) => 201
      case Listed(_) => 200
      case BadRequest => 400
      case NotFound => 404
    }
  }

  /** The `error` text of a failed reply, as sent with its status. */
  function ErrorText(r: Reply): (msg: string)
    requires r.BadRequest? || r.NotFound?
    ensures r.Status() == 400 ==> msg == "All fields are required"
    ensures r.Status() == 404 ==> msg == "Student not found"
  {
    if r.BadRequest? then "All fields are required" else "Student not found"
  }

  /** A reply together with the store after the request. */
  datatype Outcome = Outcome(reply: Reply, store: Store)

  /** JavaScript truthiness of a string field: present, not null and not "". */
  predicate Truthy(f: Option<string>) {
    f.Some? && f.value != ""
  }

  /** JavaScript truthiness of the age field: present, not null and not 0. */
  predicate TruthyAge(f: Option<int>) {
    f.Some? && f.value != 0
  }

  /**
   The POST guard `name && age && grade && email`: a string field is falsy
   when absent, null or empty, and the age when absent, null or 0.
   */
  predicate HasRequiredFields(b: Body)
    ensures HasRequiredFields(b) ==> Complete(b)
    ensures b.name == Some("") || b.grade == Some("") || b.email == Some("") ==> !HasRequiredFields(b)
    ensures b.age == Some(0) ==> !HasRequiredFields(b)
    ensures Complete(b) && b.name.value != "" && b.age.value != 0 && b.grade.value != "" && b.email.value != "" ==>
              HasRequiredFields(b)
  {
    Truthy(b.name) && TruthyAge(b.age) && Truthy(b.grade) && Truthy(b.email)
  }

  /** Every field is present, so `.trim()` and `.toUpperCase()` can be called on it. */
  predicate Complete(b: Body) {
    b.name.Some? && b.age.Some? && b.grade.Some? && b.email.Some?
  }

  /** The normal form of a record written by POST or PUT. */
  predicate IsNormalized(x: Student) {
    && IsTrimmed(x.name)
    && IsTrimmed(x.email)
    && forall k :: 0 <= k < |x.grade| ==> !IsAsciiLower(x.grade[k])
  }

  /** The record a POST or PUT stores under `id`: name and email trimmed, grade uppercased. */
  function Normalize(id: int, b: Body): (x: Student)
    requires Complete(b)
    ensures IsNormalized(x)
    ensures x.id == id && x.age == b.age.value
  {
    Student(id, Trim(b.name.value), b.age.value, Upper(b.grade.value), Trim(b.email.value))
  }

  /** What normalisation keeps: name and email lose only surrounding whitespace, grade only its case. */
  lemma NormalizeKeepsContent(id: int, b: Body)
    requires Complete(b)
    ensures exists i :: TrimmedAt(b.name.value, Normalize(id, b).name, i)
    ensures exists i :: TrimmedAt(b.email.value, Normalize(id, b).email, i)
    ensures Lower(Normalize(id, b).grade) == Lower(b.grade.value)
  {
    var x := Normalize(id, b);
    assert x.name == Trim(b.name.value) && x.email == Trim(b.email.value);
    TrimIsSlice(b.name.value);
    TrimIsSlice(b.email.value);
    LowerForgetsUpper(b.grade.value);
  }

  /** The body a client sends to write back a record it fetched. */
  function BodyOf(x: Student): Body {
    Body(Some(x.name), Some(x.age), Some(x.grade), Some(x.email))
  }

  /** A record already in normal form is reproduced by normalising its own fields. */
  lemma NormalizeFixesNormalized(x: Student)
    requires IsNormalized(x)
    ensures Normalize(x.id, BodyOf(x)) == x
  {
    TrimKeepsTrimmed(x.name);
    TrimKeepsTrimmed(x.email);
    UpperKeepsUpper(x.grade);
  }

  /** `Array.prototype.find` on the id. */
  function Find(s: seq<Student>, id: int): (r: Option<Student>)
    ensures r.None? <==> !HasId(s, id)
    ensures r.Some? ==> r.value == s[FindIndex(s, id)]
  {
    if s == [] then None
    else if s[0].id == id then Some(s[0])
    else
      assert forall k :: 1 <= k < |s| ==> s[k] == s[1..][k - 1];
      Find(s[1..], id)
  }

  /** GET /api/students: 200 with every record, in store order. */
  function List(st: Store): (r: Reply)
    ensures r.Status() == 200 && r.Listed? && r.students == st.students
  {
    Listed(st.students)
  }

  /** GET /api/students/:id: the first record with the id, or 404. */
  function Get(st: Store, id: int): (r: Reply)
    ensures r.Ok? || r.NotFound?
    ensures r.NotFound? <==> !HasId(st.students, id)
    ensures r.Ok? ==> r.student.id == id && r.student == st.students[FindIndex(st.students, id)]
  {
    match Find(st.students, id)
    case None => NotFound
    case Some(x) => Ok(x)
  }

  /** POST /api/students. */
  function Create(st: Store, b: Body): (out: Outcome)
    ensures !HasRequiredFields(b) ==> out == Outcome(BadRequest, st)
    ensures HasRequiredFields(b) ==>
      && out.reply.Created?
      && out.reply.student == Normalize(st.nextId, b)
      && out.store.students == st.students + [out.reply.student]
      && out.store.nextId == st.nextId + 1
    ensures Valid(st) ==> Valid(out.store)
  {
    if !HasRequiredFields(b) then Outcome(BadRequest, st)
    else
      var x := Normalize(st.nextId, b);
      AppendFreshKeepsValid(st, x);
      Outcome(Created(x), Store(st.students + [x], st.nextId + 1))
  }

  /**
   PUT /api/students/:id: replaces the first record with the id, keeping the
   path id. The body's fields are used only once the id is found, so a PUT of
   an absent id answers 404 whatever its body.
   */
  function Update(st: Store, id: int, b: Body): (out: Outcome)
    requires HasId(st.students, id) ==> Complete(b)
    ensures !HasId(st.students, id) ==> out == Outcome(NotFound, st)
    ensures HasId(st.students, id) ==>
      && out.reply.Ok?
      && out.reply.student == Normalize(id, b)
      && out.store.nextId == st.nextId
      && |out.store.students| == |st.students|
      && (forall k :: 0 <= k < |st.students| ==>
            out.store.students[k] == if k == FindIndex(st.students, id) then out.reply.student else st.students[k])
    ensures forall k :: 0 <= k < |st.students| ==> out.store.students[k].id == st.students[k].id
    ensures Valid(st) ==> Valid(out.store)
  {
    var i := FindIndex(st.students, id);
    if i == -1 then Outcome(NotFound, st)
    else
      var x := Normalize(id, b);
      ReplaceSameIdKeepsValid(st, i, x);
      Outcome(Ok(x), Store(st.students[i := x], st.nextId))
  }

  /** What `splice(i, 1)` does to the records: one fewer, the rest in order, and with distinct ids the removed id gone. */
  lemma RemoveAt(s: seq<Student>, i: int)
    requires 0 <= i < |s|
    ensures |s[..i] + s[i + 1..]| == |s| - 1
    ensures IsSubsequence(s[..i] + s[i + 1..], s)
    ensures multiset(s[..i] + s[i + 1..]) + multiset{s[i]} == multiset(s)
    ensures DistinctIds(s) ==> DistinctIds(s[..i] + s[i + 1..]) && !HasId(s[..i] + s[i + 1..], s[i].id)
  {
    RemoveAtIsSubsequence(s, i);
    RemoveAtMultiset(s, i);
    RemoveAtDistinct(s, i);
  }

  /** DELETE /api/students/:id: splices out the first record with the id and answers with it. */
  function Delete(st: Store, id: int): (out: Outcome)
    ensures !HasId(st.students, id) ==> out == Outcome(NotFound, st)
    ensures HasId(st.students, id) ==>
      && out.reply.Ok?
      && out.reply.student == st.students[FindIndex(st.students, id)]
      && out.reply.student.id == id
      && out.store.nextId == st.nextId
      && |out.store.students| == |st.students| - 1
      && IsSubsequence(out.store.students, st.students)
      && multiset(out.store.students) + multiset{out.reply.student} == multiset(st.students)
    ensures Valid(st) ==> Valid(out.store) && !HasId(out.store.students, id)
  {
    var s := st.students;
    var i := FindIndex(s, id);
    if i == -1 then Outcome(NotFound, st)
    else
      RemoveAt(s, i);
      Outcome(Ok(s[i]), Store(s[..i] + s[i + 1..], st.nextId))
  }

  /** The search condition with the query already lowercased. */
  predicate Hit(x: Student, lowered: string) {
    || Contains(Lower(x.name), lowered)
    || Contains(Lower(x.email), lowered)
    || Contains(Lower(x.grade), lowered)
  }

  /** The query occurs, ignoring ASCII case, in the record's name, email or grade. */
  predicate MatchesQuery(x: Student, query: string) {
    Hit(x, Lower(query))
  }

  /** GET /api/students/search/:query: the matching records, in store order. */
  function Search(st: Store, query: string): (r: seq<Student>)
    ensures IsSubsequence(r, st.students)
    ensures forall x :: multiset(r)[x] == if MatchesQuery(x, query) then multiset(st.students)[x] else 0
  {
    var lowered := Lower(query);
    FilterSelects(st.students, x => Hit(x, lowered));
    Filter(st.students, x => Hit(x, lowered))
  }
}
