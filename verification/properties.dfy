/**
 Properties relating the handlers to each other and to independent reference
 definitions: reading back what was written, deletion as filtering, update as
 replacement, and search as a case-insensitive filter.
 */
module Properties {
  import opened Wrappers
  import opened Text
  import opened Seqs
  import opened Store
  import opened Handlers

  /** A record created on a valid store is what a GET of its new id returns. */
  lemma GetAfterCreate(st: Store, b: Body)
    requires Valid(st) && HasRequiredFields(b)
    ensures Get(Create(st, b).store, st.nextId) == Ok(Create(st, b).reply.student)
  {
    var out := Create(st, b);
    OnlyPosition(out.store.students, |st.students|);
  }

  /** DELETE undoes a POST on a valid store: it answers with the created record and restores the records, keeping the advanced counter. */
  lemma DeleteUndoesCreate(st: Store, b: Body)
    requires Valid(st) && HasRequiredFields(b)
    ensures var created := Create(st, b);
      Delete(created.store, st.nextId) == Outcome(Ok(created.reply.student), Store(st.students, st.nextId + 1))
  {
    var created := Create(st, b);
    var s := created.store.students;
    var n := |st.students|;
    assert s[n].id == st.nextId;
    OnlyPosition(s, n);
    assert s[..n] + s[n + 1..] == st.students;
  }

  /** After a successful PUT, a GET of the id returns the record the PUT answered with: the replaced slot is still the first one holding the id. */
  lemma GetAfterUpdate(st: Store, id: int, b: Body)
    requires Complete(b) && HasId(st.students, id)
    ensures Get(Update(st, id, b).store, id) == Ok(Update(st, id, b).reply.student)
  {
    var out := Update(st, id, b);
    var i := FindIndex(st.students, id);
    FindIndexFirst(out.store.students, id, i);
  }

  /** Once an id is deleted from a valid store, GET, PUT (with any body) and DELETE of it all answer 404 and change nothing. */
  lemma StaleIdNotFound(st: Store, id: int, b: Body)
    requires Valid(st)
    ensures var after := Delete(st, id).store;
      && Get(after, id) == NotFound
      && Update(after, id, b) == Outcome(NotFound, after)
      && Delete(after, id) == Outcome(NotFound, after)
  {
  }

  /** Update as a reference definition: every record with the id is replaced by `x`. */
  function ReplaceId(s: seq<Student>, id: int, x: Student): (r: seq<Student>)
    ensures |r| == |s|
  {
    if s == [] then []
    else [if s[0].id == id then x else s[0]] + ReplaceId(s[1..], id, x)
  }

  lemma {:induction false} ReplaceIdAbsent(s: seq<Student>, id: int, x: Student)
    requires !HasId(s, id)
    ensures ReplaceId(s, id, x) == s
    decreases |s|
  {
    if s != [] {
      assert !HasId(s[1..], id) by {
        forall k | 0 <= k < |s| - 1 ensures s[1..][k].id != id {
          assert s[1..][k] == s[k + 1];
        }
      }
      ReplaceIdAbsent(s[1..], id, x);
    }
  }

  /** Replacing the record at the only position holding `id` is replacing every record with `id`. */
  lemma {:induction false} ReplaceIdAt(s: seq<Student>, id: int, x: Student)
    requires DistinctIds(s) && HasId(s, id)
    ensures ReplaceId(s, id, x) == s[FindIndex(s, id) := x]
    decreases |s|
  {
    if s[0].id == id {
      assert !HasId(s[1..], id) by {
        forall k | 0 <= k < |s| - 1 ensures s[1..][k].id != id {
          assert s[1..][k] == s[k + 1];
        }
      }
      ReplaceIdAbsent(s[1..], id, x);
    } else {
      var k :| 0 <= k < |s| && s[k].id == id;
      assert s[1..][k - 1].id == id;
      ReplaceIdAt(s[1..], id, x);
      assert FindIndex(s, id) == FindIndex(s[1..], id) + 1;
    }
  }

  /** On a valid store PUT rewrites exactly the records carrying the path id. */
  lemma UpdateIsReplace(st: Store, id: int, b: Body)
    requires Valid(st) && Complete(b)
    ensures Update(st, id, b).store.students == ReplaceId(st.students, id, Normalize(id, b))
  {
    if HasId(st.students, id) {
      ReplaceIdAt(st.students, id, Normalize(id, b));
    } else {
      ReplaceIdAbsent(st.students, id, Normalize(id, b));
    }
  }

  /** The filter condition DELETE amounts to: every record except those with `id`. */
  function Without(id: int): Student -> bool {
    (x: Student) => x.id != id
  }

  /** Records before the first occurrence of an id all survive filtering it out. */
  lemma FilterWithoutBefore(s: seq<Student>, i: int)
    requires DistinctIds(s) && 0 <= i < |s|
    ensures Filter(s[..i], Without(s[i].id)) == s[..i]
  {
    var before := s[..i];
    forall k | 0 <= k < |before| ensures Without(s[i].id)(before[k]) {
      assert before[k] == s[k];
    }
    FilterKeepsAll(before, Without(s[i].id));
  }

  /** From position `i` on, filtering out the id at `i` drops exactly that record. */
  lemma FilterWithoutFrom(s: seq<Student>, i: int)
    requires DistinctIds(s) && 0 <= i < |s|
    ensures Filter(s[i..], Without(s[i].id)) == s[i + 1..]
  {
    var after := s[i + 1..];
    forall k | 0 <= k < |after| ensures Without(s[i].id)(after[k]) {
      assert after[k] == s[i + 1 + k];
    }
    FilterKeepsAll(after, Without(s[i].id));
    assert s[i..] == [s[i]] + after;
  }

  /** With distinct ids, filtering out the id at position `i` is splicing out position `i`. */
  lemma FilterWithoutIsSplice(s: seq<Student>, i: int)
    requires DistinctIds(s) && 0 <= i < |s|
    ensures Filter(s, Without(s[i].id)) == s[..i] + s[i + 1..]
  {
    FilterWithoutBefore(s, i);
    FilterWithoutFrom(s, i);
    assert s == s[..i] + s[i..];
    FilterAppend(s[..i], s[i..], Without(s[i].id));
  }

  /** On a valid store DELETE keeps exactly the records whose id differs, in their order. */
  lemma DeleteIsFilter(st: Store, id: int)
    requires Valid(st)
    ensures Delete(st, id).store.students == Filter(st.students, Without(id))
  {
    var s := st.students;
    if HasId(s, id) {
      var i := FindIndex(s, id);
      assert Delete(st, id).store.students == s[..i] + s[i + 1..];
      FilterWithoutIsSplice(s, i);
    } else {
      FilterKeepsAll(s, Without(id));
    }
  }

  /** Every stored record is in the normal form POST and PUT produce. */
  ghost predicate Canonical(st: Store) {
    forall k :: 0 <= k < |st.students| ==> IsNormalized(st.students[k])
  }

  /** A string that starts and ends with a visible ASCII character is trimmed. */
  lemma VisibleEndsTrimmed(t: string)
    requires |t| > 0 && ' ' < t[0] <= '~' && ' ' < t[|t| - 1] <= '~'
    ensures IsTrimmed(t)
  {
  }

  /** Every seed record is already in the normal form POST and PUT produce. */
  lemma SeedCanonical()
    ensures Canonical(Seed())
  {
    var s := Seed().students;
    forall k | 0 <= k < |s| ensures IsNormalized(s[k]) {
      var x := s[k];
      assert |x.grade| == 1 && 'A' <= x.grade[0] <= 'Z';
      VisibleEndsTrimmed(x.name);
      VisibleEndsTrimmed(x.email);
    }
  }

  lemma {:induction false} CanonicalPreserved(st: Store, b: Body, id: int)
    requires Canonical(st)
    ensures Canonical(Create(st, b).store)
    ensures HasId(st.students, id) ==> Complete(b) ==> Canonical(Update(st, id, b).store)
    ensures Canonical(Delete(st, id).store)
  {
    var s := st.students;
    if HasId(s, id) {
      var i := FindIndex(s, id);
      var rest := Delete(st, id).store.students;
      assert rest == s[..i] + s[i + 1..];
      forall k | 0 <= k < |rest| ensures IsNormalized(rest[k]) {
        if k < i {
          assert rest[k] == s[k];
        } else {
          assert rest[k] == s[k + 1];
        }
      }
    }
  }

  /** PUT of a record's own fields under its own id, when normalising them changes nothing, leaves the store as it was. */
  lemma WriteBackSame(st: Store, i: int)
    requires DistinctIds(st.students) && 0 <= i < |st.students|
    requires Normalize(st.students[i].id, BodyOf(st.students[i])) == st.students[i]
    ensures Update(st, st.students[i].id, BodyOf(st.students[i])) == Outcome(Ok(st.students[i]), st)
  {
    OnlyPosition(st.students, i);
    UpdateSelf(st.students, i);
  }

  /** Writing back a fetched record unchanged leaves a valid, canonical store as it was. */
  lemma PutBackIsNoop(st: Store, id: int)
    requires Valid(st) && Canonical(st) && HasId(st.students, id)
    ensures Update(st, id, BodyOf(Get(st, id).student)) == Outcome(Get(st, id), st)
  {
    var i := FindIndex(st.students, id);
    var x := st.students[i];
    assert Get(st, id) == Ok(x);
    assert IsNormalized(x);
    NormalizeFixesNormalized(x);
    WriteBackSame(st, i);
  }

  /** The empty query matches every record, so search returns the whole store. */
  lemma SearchEmptyQuery(st: Store)
    ensures Search(st, "") == st.students
  {
    forall k | 0 <= k < |st.students| ensures Hit(st.students[k], Lower("")) {
      ContainsEmpty(Lower(st.students[k].name));
    }
    FilterKeepsAll(st.students, x => Hit(x, Lower("")));
  }

  /** Search ignores the case of the query. */
  lemma SearchIgnoresQueryCase(st: Store, query: string)
    ensures Search(st, Upper(query)) == Search(st, query)
    ensures Search(st, Lower(query)) == Search(st, query)
  {
    LowerForgetsUpper(query);
    assert Lower(Lower(query)) == Lower(query);
  }

  /** A record whose name, email or grade literally contains the query is found by search. */
  lemma SearchFindsLiteralMatch(st: Store, query: string, k: int)
    requires 0 <= k < |st.students|
    requires var x := st.students[k]; Contains(x.name, query) || Contains(x.email, query) || Contains(x.grade, query)
    ensures st.students[k] in Search(st, query)
  {
    var x := st.students[k];
    if Contains(x.name, query) {
      ContainsLowered(x.name, query);
    } else if Contains(x.email, query) {
      ContainsLowered(x.email, query);
    } else {
      ContainsLowered(x.grade, query);
    }
    assert multiset(st.students)[x] > 0;
  }

  /** When no record matches the query, search returns the empty array. */
  lemma SearchNoMatch(st: Store, query: string)
    requires forall k :: 0 <= k < |st.students| ==> !MatchesQuery(st.students[k], query)
    ensures Search(st, query) == []
  {
    FilterDropsAll(st.students, x => Hit(x, Lower(query)));
  }
}
