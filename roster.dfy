/** The student records and the pure list transforms the component builds
    its next state from: validation of the form, the `map` that writes an
    edit back, the `find` that loads a record into the form, and the two
    `filter`s for delete and search (src/App.jsx). */
module Roster {
  import opened Text
  import opened Seqs

  /** One entry of the list: `{id, name, mark, subject, date}`. The id is
      the millisecond timestamp taken when the entry was added. */
  datatype Student = Student(id: int, name: string, mark: string, subject: string, date: string)

  /** The four form inputs, before an id is attached. */
  datatype Draft = Draft(name: string, mark: string, subject: string, date: string)

  /** `editId`: `null`, or the id of the record the form is editing. */
  datatype Option<T> = None | Some(value: T)

  const FillAllFieldsMessage: string := "Please fill in all fields before adding."

  const EmptyDraft: Draft := Draft("", "", "", "")

  /** The guard of the add/update action: name, mark and subject are
      rejected when they consist of whitespace only (blank after trimming),
      the date only when it is exactly the empty string. */
  predicate Incomplete(d: Draft)
    ensures Incomplete(d) <==>
      AllWhitespace(d.name) || AllWhitespace(d.mark) || AllWhitespace(d.subject) || d.date == []
  {
    IsBlank(d.name) || IsBlank(d.mark) || IsBlank(d.subject) || d.date == ""
  }

  /** A date of spaces passes the guard although a name of spaces does not:
      only the date escapes the trim. */
  lemma BlankDateAccepted()
    ensures !Incomplete(Draft("Alice", "90", "Maths", " "))
    ensures Incomplete(Draft(" ", "90", "Maths", "2024-01-01"))
  {
    assert !IsWhitespace("Alice"[0]) && !IsWhitespace("90"[0]) && !IsWhitespace("Maths"[0]);
  }

  predicate HasId(s: seq<Student>, id: int) {
    exists k | 0 <= k < |s| :: s[k].id == id
  }

  /** No two records share an id. */
  predicate UniqueIds(s: seq<Student>) {
    forall i, j | 0 <= i < j < |s| :: s[i].id != s[j].id
  }

  /** The four fields `handleEditStudent` copies from a record into the
      form. */
  function DraftOf(st: Student): Draft {
    Draft(st.name, st.mark, st.subject, st.date)
  }

  /** The record literal of the add branch: it carries the new id, and
      loading it back into the form gives the draft it was built from. */
  function NewStudent(id: int, d: Draft): (r: Student)
    ensures r.id == id && DraftOf(r) == d
  {
    Student(id, d.name, d.mark, d.subject, d.date)
  }

  /** `{...student, name, mark, subject, date}`: the record keeps its id and
      takes the four fields of the draft. */
  function Revise(st: Student, d: Draft): (r: Student)
    ensures r.id == st.id && DraftOf(r) == d
  {
    st.(name := d.name, mark := d.mark, subject := d.subject, date := d.date)
  }

  /** The callback of the update branch's `map`: the record with the edited
      id is rewritten from the draft, any other is returned as it is. */
  function Patch(st: Student, id: int, d: Draft): (r: Student)
    ensures r.id == st.id
    ensures st.id == id ==> r == NewStudent(id, d)
    ensures st.id != id ==> r == st
  {
    if st.id == id then Revise(st, d) else st
  }

  /** `students.map(...)` of the update branch. It keeps length, order and
      every id: each record with the edited id takes the four draft fields,
      every other record is left as it was. */
  function Upsert(s: seq<Student>, id: int, d: Draft): (r: seq<Student>)
    ensures |r| == |s|
    ensures forall i | 0 <= i < |s| ::
      r[i].id == s[i].id &&
      (s[i].id == id ==> r[i] == NewStudent(id, d)) &&
      (s[i].id != id ==> r[i] == s[i])
  {
    if s == [] then []
    else
      var init := s[..|s| - 1];
      var r := Upsert(init, id, d) + [Patch(s[|s| - 1], id, d)];
      assert forall i | 0 <= i < |init| :: init[i] == s[i] && r[i] == Upsert(init, id, d)[i];
      r
  }

  /** Updating an id no record has (the record was deleted while being
      edited) leaves the list as it was. */
  lemma UpsertAbsent(s: seq<Student>, id: int, d: Draft)
    requires !HasId(s, id)
    ensures Upsert(s, id, d) == s
  {
  }

  /** Updating keeps every id, so unique ids stay unique. */
  lemma UpsertKeepsUnique(s: seq<Student>, id: int, d: Draft)
    requires UniqueIds(s)
    ensures UniqueIds(Upsert(s, id, d))
    ensures forall x :: HasId(Upsert(s, id, d), x) <==> HasId(s, x)
  {
  }

  /** Adding a record under an id not yet used keeps ids unique. */
  lemma AppendKeepsUnique(s: seq<Student>, id: int, d: Draft)
    requires UniqueIds(s) && !HasId(s, id)
    ensures UniqueIds(s + [NewStudent(id, d)])
    ensures HasId(s + [NewStudent(id, d)], id)
  {
    var r := s + [NewStudent(id, d)];
    assert r[|s|].id == id;
    forall i, j | 0 <= i < j < |r| ensures r[i].id != r[j].id {
      if j == |s| {
        assert r[i] == s[i];
      } else {
        assert r[i] == s[i] && r[j] == s[j];
      }
    }
  }

  /** `students.find((student) => student.id === id)`: the position of the
      first record with that id. */
  function FindById(s: seq<Student>, id: int): (k: nat)
    requires HasId(s, id)
    ensures k < |s| && s[k].id == id
    ensures forall j | 0 <= j < k :: s[j].id != id
  {
    if s[0].id == id then 0
    else
      assert HasId(s[1..], id) by {
        var k :| 0 <= k < |s| && s[k].id == id;
        assert s[1..][k - 1] == s[k];
      }
      1 + FindById(s[1..], id)
  }

  /** With unique ids the record found is the only one with that id. */
  lemma FindByIdUnique(s: seq<Student>, id: int, k: nat)
    requires UniqueIds(s) && k < |s| && s[k].id == id
    ensures FindById(s, id) == k
  {
  }

  /** The test of the delete action's `filter`. */
  function IdOtherThan(id: int): Student -> bool {
    (st: Student) => st.id != id
  }

  /** `students.filter((student) => student.id !== id)`: a record survives
      exactly when it was listed and its id differs, so no record with the
      id remains and the list never grows. */
  function Remove(s: seq<Student>, id: int): (r: seq<Student>)
    ensures forall st :: st in r <==> st in s && st.id != id
    ensures !HasId(r, id)
    ensures |r| <= |s|
  {
    FilterMembership(s, IdOtherThan(id));
    var r := Filter(s, IdOtherThan(id));
    assert forall k | 0 <= k < |r| :: r[k] in r;
    r
  }

  /** The delete keeps the surviving records in their original order: they
      are read off `s` at increasing positions, and a position is read
      exactly when its id differs. */
  lemma RemoveOrder(s: seq<Student>, id: int)
    ensures var ks := KeptIndices(s, IdOtherThan(id));
      |ks| == |Remove(s, id)| &&
      (forall k | 0 <= k < |ks| :: ks[k] < |s| && Remove(s, id)[k] == s[ks[k]]) &&
      (forall k, l | 0 <= k < l < |ks| :: ks[k] < ks[l]) &&
      (forall i | 0 <= i < |s| :: s[i].id != id <==> i in ks)
  {
    FilterPositions(s, IdOtherThan(id));
  }

  /** Deleting an id no record has changes nothing. */
  lemma RemoveAbsent(s: seq<Student>, id: int)
    requires !HasId(s, id)
    ensures Remove(s, id) == s
  {
    FilterKeepsAll(s, IdOtherThan(id));
  }

  /** Deleting twice is deleting once. */
  lemma RemoveIdempotent(s: seq<Student>, id: int)
    ensures Remove(Remove(s, id), id) == Remove(s, id)
  {
    FilterIdempotent(s, IdOtherThan(id));
  }

  /** With unique ids a delete removes one record when the id is present
      and none when it is absent. */
  lemma {:induction false} RemoveCount(s: seq<Student>, id: int)
    requires UniqueIds(s)
    ensures |Remove(s, id)| == if HasId(s, id) then |s| - 1 else |s|
  {
    if s != [] {
      var init := s[..|s| - 1];
      RemoveCount(init, id);
      assert forall i | 0 <= i < |init| :: init[i] == s[i];
      if s[|s| - 1].id == id {
        assert HasId(s, id);
        assert !HasId(init, id);
      } else {
        assert HasId(s, id) <==> HasId(init, id);
      }
    }
  }

  /** A delete keeps ids unique. */
  lemma RemoveKeepsUnique(s: seq<Student>, id: int)
    requires UniqueIds(s)
    ensures UniqueIds(Remove(s, id))
  {
    RemoveOrder(s, id);
  }

  /** The test of the search `filter`: the lower-cased name includes the
      lower-cased query. Every name matches the empty query, and no name
      matches a query longer than itself. */
  predicate Matches(st: Student, query: string)
    ensures query == "" ==> Matches(st, query)
    ensures Matches(st, query) ==> |query| <= |st.name|
  {
    Contains(Lower(st.name), Lower(query))
  }

  function NameMatches(query: string): Student -> bool {
    (st: Student) => Matches(st, query)
  }

  /** `filteredStudents`: a record is listed exactly when it is in the list
      and its name matches. */
  function Search(s: seq<Student>, query: string): (r: seq<Student>)
    ensures forall st :: st in r <==> st in s && Matches(st, query)
    ensures |r| <= |s|
  {
    FilterMembership(s, NameMatches(query));
    Filter(s, NameMatches(query))
  }

  /** The search keeps the listed records in their original order. */
  lemma SearchOrder(s: seq<Student>, query: string)
    ensures var ks := KeptIndices(s, NameMatches(query));
      |ks| == |Search(s, query)| &&
      (forall k | 0 <= k < |ks| :: ks[k] < |s| && Search(s, query)[k] == s[ks[k]]) &&
      (forall k, l | 0 <= k < l < |ks| :: ks[k] < ks[l]) &&
      (forall i | 0 <= i < |s| :: Matches(s[i], query) <==> i in ks)
  {
    FilterPositions(s, NameMatches(query));
  }

  /** An empty search box lists every record. */
  lemma SearchEmptyQuery(s: seq<Student>)
    ensures Search(s, "") == s
  {
    assert forall i | 0 <= i < |s| :: NameMatches("")(s[i]);
    FilterKeepsAll(s, NameMatches(""));
  }

  /** The case of the query does not matter. */
  lemma SearchIgnoresQueryCase(s: seq<Student>, query: string)
    ensures Search(s, query) == Search(s, Lower(query))
  {
    LowerIdempotent(query);
    FilterCongruent(s, NameMatches(query), NameMatches(Lower(query)));
  }

  /** The case of the name does not matter either: "Alice" is found by "ali"
      and by "ALI". */
  lemma SearchExample(id: int)
    ensures Matches(Student(id, "Alice", "90", "Maths", "2024-01-01"), "ali")
    ensures Matches(Student(id, "Alice", "90", "Maths", "2024-01-01"), "ALI")
  {
    assert Lower("Alice")[..3] == "ali";
    assert Lower("ALI") == "ali";
    assert Lower("ali") == "ali";
  }
}
