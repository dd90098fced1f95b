/** The `App` component of src/App.jsx: its state slots become fields and
    each event handler a method that updates them as one atomic step. */
module App {
  import opened Text
  import opened Roster

  class StudentMarkList {
    var students: seq<Student>
    var nameInput: string
    var markInput: string
    var subjectInput: string
    var dateInput: string
    var editId: Option<int>
    var errorMsg: string
    var searchInput: string

    /** The roster keeps ids unique. */
    ghost predicate Valid()
      reads this
    {
      UniqueIds(students)
    }

    /** The four form inputs as a draft. */
    function Inputs(): Draft
      reads this
    {
      Draft(nameInput, markInput, subjectInput, dateInput)
    }

    /** The initial values of the `useState` slots. */
    constructor ()
      ensures Valid()
      ensures students == [] && Inputs() == EmptyDraft && editId == None
      ensures errorMsg == "" && searchInput == ""
    {
      students := [];
      nameInput, markInput, subjectInput, dateInput := "", "", "", "";
      editId := None;
      errorMsg := "";
      searchInput := "";
    }

    /** The `onChange` handlers of the four form inputs and of the search box. */
    method SetNameInput(v: string)
      modifies this`nameInput
      ensures nameInput == v
    {
      nameInput := v;
    }

    method SetMarkInput(v: string)
      modifies this`markInput
      ensures markInput == v
    {
      markInput := v;
    }

    method SetSubjectInput(v: string)
      modifies this`subjectInput
      ensures subjectInput == v
    {
      subjectInput := v;
    }

    method SetDateInput(v: string)
      modifies this`dateInput
      ensures dateInput == v
    {
      dateInput := v;
    }

    method SetSearchInput(v: string)
      modifies this`searchInput
      ensures searchInput == v
    {
      searchInput := v;
    }

    /** `handleAddStudent`. An incomplete form only sets the error message.
        Otherwise, when a record is being edited, the update writes the form
        back into it and leaves edit mode; when none is, a record is
        appended under `newId`, the timestamp the clock supplies. Either way
        the form and the error message are then cleared. */
    method HandleAddStudent(newId: int)
      requires editId == None && !Incomplete(Inputs()) ==> !HasId(students, newId)
      modifies this`students, this`nameInput, this`markInput, this`subjectInput,
        this`dateInput, this`editId, this`errorMsg
      ensures Incomplete(old(Inputs())) ==>
        errorMsg == FillAllFieldsMessage && students == old(students) &&
        editId == old(editId) && Inputs() == old(Inputs())
      ensures !Incomplete(old(Inputs())) ==>
        students == (match old(editId)
                     case Some(id) => Upsert(old(students), id, old(Inputs()))
                     case None => old(students) + [NewStudent(newId, old(Inputs()))]) &&
        editId == None && Inputs() == EmptyDraft && errorMsg == ""
      ensures |students| ==
        if !Incomplete(old(Inputs())) && old(editId) == None then |old(students)| + 1 else |old(students)|
      ensures old(Valid()) ==> Valid()
    {
      if Incomplete(Inputs()) {
        errorMsg := FillAllFieldsMessage;
        return;
      }
      match editId {
        case Some(id) =>
          if Valid() {
            UpsertKeepsUnique(students, id, Inputs());
          }
          students := Upsert(students, id, Inputs());
          editId := None;
        case None =>
          if Valid() {
            AppendKeepsUnique(students, newId, Inputs());
          }
          students := students + [NewStudent(newId, Inputs())];
      }
      nameInput, markInput, subjectInput, dateInput := "", "", "", "";
      errorMsg := "";
    }

    /** `handleEditStudent`: loads the first record with `id` into the form
        and enters edit mode. The list view only offers ids of listed
        records. */
    method HandleEditStudent(id: int)
      requires HasId(students, id)
      modifies this`nameInput, this`markInput, this`subjectInput, this`dateInput, this`editId
      ensures var st := students[FindById(students, id)];
        st.id == id && Inputs() == DraftOf(st)
      ensures editId == Some(id)
    {
      var st := students[FindById(students, id)];
      nameInput := st.name;
      markInput := st.mark;
      subjectInput := st.subject;
      dateInput := st.date;
      editId := Some(id);
    }

    /** `handleDeleteStudent`: keeps every record whose id differs. */
    method HandleDeleteStudent(id: int)
      modifies this`students
      ensures students == Remove(old(students), id)
      ensures |students| <= |old(students)|
      ensures old(Valid()) ==> Valid()
      ensures old(Valid()) ==> |students| == |old(students)| - if HasId(old(students), id) then 1 else 0
    {
      if Valid() {
        RemoveKeepsUnique(students, id);
        RemoveCount(students, id);
      }
      students := Remove(students, id);
    }

    /** `filteredStudents`, recomputed from the list and the search box on
        every render: exactly the records whose name matches, in list
        order. */
    function FilteredStudents(): (r: seq<Student>)
      reads this
      ensures forall st :: st in r <==> st in students && Matches(st, searchInput)
      ensures searchInput == "" ==> r == students
    {
      SearchEmptyQuery(students);
      Search(students, searchInput)
    }
  }

  /** Add a record, correct it, then delete it: the list goes from one
      record with the typed fields, to the same record with the corrected
      fields under the same id, to empty. A first attempt with the mark left
      empty is always refused and changes nothing. */
  method AddCorrectDelete(t: int, first: Draft, second: Draft)
    returns (added: seq<Student>, updated: seq<Student>, final: seq<Student>)
    requires !Incomplete(first) && !Incomplete(second)
    ensures added == [NewStudent(t, first)]
    ensures updated == [NewStudent(t, second)]
    ensures final == []
  {
    var app := new StudentMarkList();
    AddRecord(app, t, first);
    added := app.students;
    CorrectRecord(app, t, second);
    updated := app.students;
    assert UniqueIds(updated) && HasId(updated, t) by {
      assert updated[0].id == t;
    }
    app.HandleDeleteStudent(t);
    final := app.students;
    RemoveCount(updated, t);
  }

  /** The first submission lacks the mark and is refused; the second adds
      the record. */
  method AddRecord(app: StudentMarkList, t: int, first: Draft)
    requires !Incomplete(first)
    requires app.students == [] && app.editId == None
    modifies app
    ensures app.students == [NewStudent(t, first)]
    ensures app.editId == None
  {
    app.SetNameInput(first.name);
    app.SetMarkInput("");
    app.SetSubjectInput(first.subject);
    app.SetDateInput(first.date);
    assert app.Inputs() == first.(mark := "");
    app.HandleAddStudent(t);
    assert app.students == [] && app.errorMsg == FillAllFieldsMessage;
    app.SetMarkInput(first.mark);
    assert app.Inputs() == first;
    app.HandleAddStudent(t);
    assert app.students == [] + [NewStudent(t, first)];
  }

  /** Editing the record and submitting the corrected form rewrites it in
      place under the same id. */
  method CorrectRecord(app: StudentMarkList, t: int, second: Draft)
    requires !Incomplete(second)
    requires |app.students| == 1 && app.students[0].id == t
    modifies app
    ensures app.students == [NewStudent(t, second)]
  {
    ghost var before := app.students;
    assert FindById(before, t) == 0;
    app.HandleEditStudent(t);
    assert app.editId == Some(t) && app.students == before;
    app.SetNameInput(second.name);
    app.SetMarkInput(second.mark);
    app.SetSubjectInput(second.subject);
    app.SetDateInput(second.date);
    assert app.Inputs() == second;
    app.HandleAddStudent(t + 1);
    assert app.students == Upsert(before, t, second);
  }

  /** The add, correct, delete run with "Alice" (90, Maths, 2024-01-01)
      corrected to "Alicia" (95, Maths, 2024-01-02). */
  method AliceScenario(t: int) returns (added: seq<Student>, updated: seq<Student>, final: seq<Student>)
    ensures added == [Student(t, "Alice", "90", "Maths", "2024-01-01")]
    ensures updated == [Student(t, "Alicia", "95", "Maths", "2024-01-02")]
    ensures final == []
  {
    ScenarioDrafts();
    added, updated, final := AddCorrectDelete(t, Draft("Alice", "90", "Maths", "2024-01-01"),
                                              Draft("Alicia", "95", "Maths", "2024-01-02"));
  }

  /** An empty mark fails the guard, and the two complete forms pass it. */
  lemma ScenarioDrafts()
    ensures Incomplete(Draft("Alice", "", "Maths", "2024-01-01"))
    ensures !Incomplete(Draft("Alice", "90", "Maths", "2024-01-01"))
    ensures !Incomplete(Draft("Alicia", "95", "Maths", "2024-01-02"))
  {
    assert !IsWhitespace("Alice"[0]) && !IsWhitespace("Alicia"[0]) && !IsWhitespace("Maths"[0]);
    assert !IsWhitespace("90"[0]) && !IsWhitespace("95"[0]);
  }
}
