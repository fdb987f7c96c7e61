/**
 Concrete runs of the server from its seeded state: the end-to-end
 create/list/delete/get sequence, and the edge cases of the POST guard.
 */
module Scenario {
  import opened Wrappers
  import opened Text
  import opened Store
  import opened Handlers
  import opened Properties

  /** The sample body of a POST: lowercase grade and an email padded with blanks. */
  function AnnLee(): Body {
    Body(Some("Ann Lee"), Some(20), Some("a"), Some(" ann@x.com "))
  }

  lemma SampleNameKept()
    ensures Trim("Ann Lee") == "Ann Lee"
  {
    var name := "Ann Lee";
    assert name[0] == 'A' && name[|name| - 1] == 'e';
    TrimKeepsTrimmed(name);
  }

  lemma SampleEmailTrimmed()
    ensures Trim(" ann@x.com ") == "ann@x.com"
  {
    var email := "ann@x.com";
    assert email[0] == 'a' && email[|email| - 1] == 'm';
    TrimStripsPadding(email);
    assert " ann@x.com " == [' '] + email + [' '];
  }

  lemma SampleGradeUppercased()
    ensures Upper("a") == "A"
  {
    var u := Upper("a");
    assert |u| == 1 && u[0] == UpperChar('a');
    assert UpperChar('a') == 'A';
  }

  /** POST normalisation of the sample body: grade uppercased, email trimmed, name kept. */
  lemma AnnLeeNormalized()
    ensures HasRequiredFields(AnnLee())
    ensures Normalize(6, AnnLee()) == Student(6, "Ann Lee", 20, "A", "ann@x.com")
  {
    SampleNameKept();
    SampleEmailTrimmed();
    SampleGradeUppercased();
  }

  /** A POST whose body passes the check and normalises to `x` answers 201 with `x` and appends it. */
  lemma CreateWith(st: Store, b: Body, x: Student)
    requires HasRequiredFields(b) && Normalize(st.nextId, b) == x
    ensures Create(st, b).reply == Created(x)
    ensures List(Create(st, b).store).students == st.students + [x]
  {
  }

  /** POST of the sample body on a store of five records with counter 6 answers 201 with id 6 and the normalised fields, and the list grows to six records. */
  lemma CreateAnnLee(st: Store, b: Body)
    requires |st.students| == 5 && st.nextId == 6 && b == AnnLee()
    ensures Create(st, b).reply == Created(Student(6, "Ann Lee", 20, "A", "ann@x.com"))
    ensures Create(st, b).reply.Status() == 201
    ensures |List(Create(st, b).store).students| == 6
  {
    AnnLeeNormalized();
    CreateWith(st, b, Student(6, "Ann Lee", 20, "A", "ann@x.com"));
  }

  /** On a valid store with counter 6, DELETE of id 6 after that POST answers 200 with the new record. */
  lemma DeleteAnnLee(st: Store, b: Body)
    requires Valid(st) && st.nextId == 6 && b == AnnLee()
    ensures Delete(Create(st, b).store, 6).reply == Ok(Student(6, "Ann Lee", 20, "A", "ann@x.com"))
  {
    AnnLeeNormalized();
    DeleteUndoesCreate(st, b);
  }

  /** On a valid store with counter 6, a GET of id 6 after that POST and DELETE answers 404. */
  lemma GetAfterDeleteAnnLee(st: Store, b: Body)
    requires Valid(st) && st.nextId == 6 && b == AnnLee()
    ensures Get(Delete(Create(st, b).store, 6).store, 6) == NotFound
  {
    AnnLeeNormalized();
    DeleteUndoesCreate(st, b);
    assert !HasId(st.students, 6);
  }

  /**
   From the seed: POST answers 201 with id 6 and normalised fields, the list
   then has six records, DELETE of 6 answers 200 with that record, and a GET
   of 6 then answers 404 "Student not found".
   */
  lemma EndToEnd(st: Store, b: Body)
    requires st == Seed() && b == AnnLee()
    ensures var created := Create(st, b);
      && created.reply.Status() == 201
      && created.reply.student.id == 6
      && |List(created.store).students| == 6
      && Delete(created.store, 6).reply.Status() == 200
      && Delete(created.store, 6).reply.student == created.reply.student
      && ErrorText(Get(Delete(created.store, 6).store, 6)) == "Student not found"
  {
    assert Valid(st) && |st.students| == 5 && st.nextId == 6;
    CreateAnnLee(st, b);
    DeleteAnnLee(st, b);
    GetAfterDeleteAnnLee(st, b);
  }

  /** Age 0 is falsy, so a POST carrying it is refused with 400 and nothing changes. */
  lemma ZeroAgeRejected(st: Store, name: string, grade: string, email: string)
    ensures Create(st, Body(Some(name), Some(0), Some(grade), Some(email))) == Outcome(BadRequest, st)
  {
  }

  /** The presence check runs before trimming: a name of blanks passes it and is stored empty. */
  lemma BlankNameStoredEmpty(st: Store)
    ensures var out := Create(st, Body(Some("  "), Some(20), Some("A"), Some("a@b.c")));
      out.reply.Created? && out.reply.student.name == ""
  {
    assert TrimStart("  ") == "";
  }
}
