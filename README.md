# Student mark list — a Dafny model of the roster store

The application is one React component, `App`, that keeps a list of student
entries `{id, name, mark, subject, date}`. A form with four inputs adds an
entry or, in edit mode, rewrites the entry being edited. Each listed entry
has an edit button and a delete button. A search box narrows the list to
the entries whose name contains the query, ignoring case.

This project models that component's state and handlers:

- `text.dfy`, module `Text`: the three string operations the handlers use.
  These are `trim` (with ECMAScript's whitespace set), `toLowerCase` and
  `includes`.
- `seqs.dfy`, module `Seqs`: `Array.prototype.filter` and what it
  guarantees. It keeps exactly the elements that pass, at increasing
  positions.
- `roster.dfy`, module `Roster`: the record type, the form guard, and the
  list transforms. These are the `map` that writes an edit back, the `find`
  that loads a record, the delete `filter` and the search `filter`. Lemmas
  about each transform are here too.
- `app.dfy`, module `App`: class `StudentMarkList`. Its fields are the
  component's `useState` slots. It has one method per event handler, and
  `FilteredStudents` is the derived search view. The file also holds a
  client scenario: add, correct, then delete one entry.

Each handler is one atomic update of the fields. Field-granular `modifies`
clauses (``this`students`` and so on) say which slots a handler may change.
Every other slot keeps its value.

Behaviour of the code worth knowing:

- The guard trims name, mark and subject, but rejects the date only when it
  is exactly `''`. A date made of spaces passes that check
  (`BlankDateAccepted`). The date field is an `<input type="date">`
  (src/App.jsx:140-145), whose value is `''` or a valid `yyyy-mm-dd`, so the
  form itself never submits such a date.
- There is no not-found error when the form is submitted in edit mode for an
  id that no record has. This happens when the edited record is deleted
  before the form is submitted. The `map` then changes nothing, the form is
  cleared and edit mode ends, so the typed values are lost silently
  (`UpsertAbsent`).
- The subject is any string that is not blank. The three subject names live
  only in the `<select>` markup.
- The handlers return nothing. A handler's effect is the new state.
- Loading a record into the form (`find`) on an absent id would throw a
  TypeError. The list view only offers ids of listed records, so
  `HandleEditStudent` requires that the id is present.
- The edit handler does not clear an error message that is showing.

## Model

| member | source | states |
|---|---|---|
| Text.TrimStartShape | src/App.jsx:28-30 | Stripping leading whitespace leaves a suffix of the input, preceded only by whitespace, that does not start with whitespace |
| Text.TrimEndShape | src/App.jsx:28-30 | Stripping trailing whitespace leaves a prefix of the input, followed only by whitespace, that does not end with whitespace |
| Text.TrimStartEmptyIff | src/App.jsx:28-30 | Stripping leading whitespace leaves nothing exactly when every character is whitespace |
| Text.TrimEndEmptyIff | src/App.jsx:28-30 | Stripping trailing whitespace leaves nothing exactly when every character is whitespace |
| Text.Trim | src/App.jsx:28-30 | `trim()` never lengthens the string, and the result is empty or neither starts nor ends with whitespace |
| Text.TrimShape | src/App.jsx:28-30 | `trim()` returns a slice of the input with only whitespace before and after it |
| Text.IsBlank | src/App.jsx:28-30 | `s.trim() === ''` holds exactly when every character of `s` is whitespace, the empty string included |
| Text.TrimIdempotent | src/App.jsx:28-30 | Trimming a trimmed string changes nothing |
| Text.LowerChar | src/App.jsx:87 | A lower-cased character is never an upper-case ASCII letter. A capital maps to the small letter at the same alphabet position, and every other character is kept |
| Text.Lower | src/App.jsx:87 | ASCII lower-casing, the model of `toLowerCase`, keeps the length and maps each character on its own |
| Text.LowerHasNoCapitals | src/App.jsx:87 | A lower-cased string holds no upper-case ASCII letter |
| Text.LowerIdempotent | src/App.jsx:87 | Lower-casing twice gives the same string as lower-casing once |
| Text.Contains | src/App.jsx:87 | Every string includes the empty string, and no string includes one longer than itself |
| Text.ContainsIff | src/App.jsx:87 | `h.includes(n)` holds exactly when `n` occurs in `h` at some index |
| Seqs.Filter | src/App.jsx:82 | `filter` never makes a list longer |
| Seqs.FilterPositions | src/App.jsx:86-88 | The result of `filter` reads the input at strictly increasing positions, and a position is read exactly when its element passes the test |
| Seqs.FilterMembership | src/App.jsx:86-88 | A value is in the result of `filter` exactly when it is in the input and passes the test |
| Seqs.FilterKeepsAll | src/App.jsx:82 | When every element passes, `filter` returns the input unchanged |
| Seqs.FilterIdempotent | src/App.jsx:82 | Filtering the result of `filter` again with the same test changes nothing |
| Seqs.FilterCongruent | src/App.jsx:86-88 | Two tests that agree on every element give the same result |
| Seqs.FilterConcat | src/App.jsx:86-88 | Filtering a concatenation is the concatenation of the filtered parts, so the scan direction does not matter |
| Roster.Incomplete | src/App.jsx:27-32 | The add/update guard rejects exactly when name, mark or subject is all whitespace or the date is the empty string |
| Roster.BlankDateAccepted | src/App.jsx:27-32 | A date of one space passes the guard, and a name of one space does not |
| Roster.NewStudent | src/App.jsx:53-59 | The record of the add branch carries the new id, and its name, mark, subject and date are the four form values |
| Roster.Revise | src/App.jsx:41-47 | The spread `{...student, name, mark, subject, date}` keeps the record's id and takes the four form values |
| Roster.Patch | src/App.jsx:39-48 | The `map` callback keeps the id. A record with the edited id becomes the form's record under that id, and any other record is returned unchanged |
| Roster.Upsert | src/App.jsx:38-50 | The update `map` keeps length, order and every id. A record with the edited id takes the four form values. Every other record is unchanged |
| Roster.UpsertAbsent | src/App.jsx:39-49 | When no record has the edited id, the update leaves the list unchanged |
| Roster.UpsertKeepsUnique | src/App.jsx:39-49 | The update keeps the set of ids and keeps ids unique |
| Roster.AppendKeepsUnique | src/App.jsx:53-60 | Appending a record under an unused id keeps ids unique, and the new id is then present |
| Roster.FindById | src/App.jsx:72 | `find` by id returns a position whose record has the id, and no earlier record has it |
| Roster.FindByIdUnique | src/App.jsx:72 | When ids are unique, `find` returns the one record with that id |
| Roster.Remove | src/App.jsx:82 | A record survives the delete exactly when it was listed and its id differs, so no record with the id remains and the list never grows |
| Roster.RemoveOrder | src/App.jsx:82 | The surviving records keep their original order, and a position survives exactly when its id differs |
| Roster.RemoveAbsent | src/App.jsx:82 | Deleting an absent id leaves the list unchanged |
| Roster.RemoveIdempotent | src/App.jsx:82 | Deleting the same id twice gives the same list as deleting it once |
| Roster.RemoveCount | src/App.jsx:82 | When ids are unique, a delete removes exactly one record if the id is present and none if it is absent |
| Roster.RemoveKeepsUnique | src/App.jsx:82 | A delete keeps ids unique |
| Roster.Matches | src/App.jsx:87 | The name test accepts every record for the empty query and rejects any query longer than the name |
| Roster.Search | src/App.jsx:86-88 | A record is in the search result exactly when it is listed and its lower-cased name includes the lower-cased query, and the result is never longer than the list |
| Roster.SearchOrder | src/App.jsx:86-88 | The search result keeps list order, and a position is shown exactly when its name matches |
| Roster.SearchEmptyQuery | src/App.jsx:86-88 | An empty query shows the whole list, unchanged and in order |
| Roster.SearchIgnoresQueryCase | src/App.jsx:86-88 | Lower-casing the query first gives the same result |
| Roster.SearchExample | src/App.jsx:86-88 | A record named "Alice" matches the query "ali" and the query "ALI" |
| App.StudentMarkList.constructor | src/App.jsx:5-12 | The component starts with an empty list, empty inputs, no record in edit, no error and an empty search box |
| App.StudentMarkList.SetNameInput | src/App.jsx:113 | Typing into the name input sets it and changes nothing else |
| App.StudentMarkList.SetMarkInput | src/App.jsx:122 | Typing into the mark input sets it and changes nothing else |
| App.StudentMarkList.SetSubjectInput | src/App.jsx:130 | Choosing a subject sets it and changes nothing else |
| App.StudentMarkList.SetDateInput | src/App.jsx:143 | Picking a date sets it and changes nothing else |
| App.StudentMarkList.SetSearchInput | src/App.jsx:164 | Typing into the search box sets the query and changes nothing else |
| App.StudentMarkList.HandleAddStudent | src/App.jsx:26-68 | An incomplete form only sets the fixed error message, and the list, edit mode and inputs stay as they were. Otherwise, in edit mode the list becomes the update `map` of the form and edit mode ends. With no record in edit, the list gains exactly one record at the end, built from the form under the new id, which must be unused only in that branch. In both cases the inputs and the error message are then cleared. The list grows by one only in the add branch, and unique ids stay unique |
| App.StudentMarkList.HandleEditStudent | src/App.jsx:71-78 | The inputs take the name, mark, subject and date of the first record with the id, and edit mode holds that id. The list, the error message and the search box are untouched |
| App.StudentMarkList.HandleDeleteStudent | src/App.jsx:81-83 | The list becomes the delete `filter` of the old list and never grows. With unique ids it loses exactly one record when the id is present and none otherwise, and ids stay unique. Nothing else changes |
| App.StudentMarkList.FilteredStudents | src/App.jsx:86-88 | The view shows exactly the listed records whose name matches the search box, and the whole list when the box is empty |
| App.AddCorrectDelete | src/App.jsx:26-83 | For any complete form and any complete correction: a first submission with the mark left empty is refused, then adding, editing and resubmitting, then deleting goes from one record to the corrected record under the same id to an empty list |
| App.AddRecord | src/App.jsx:26-68 | A submission without a mark is refused and leaves the list empty. The complete submission then adds exactly the typed record |
| App.CorrectRecord | src/App.jsx:37-51 | Editing the only record and submitting the corrected form rewrites it in place under the same id |
| App.AliceScenario | src/App.jsx:26-83 | Adding "Alice" (90, Maths, 2024-01-01), correcting it to "Alicia" (95, 2024-01-02) and deleting it goes from one record to the corrected record under the same id to an empty list |
| App.ScenarioDrafts | src/App.jsx:27-32 | An empty mark fails the guard, and the scenario's two complete forms pass it |

## Left out

- Loading the list from `localStorage` and saving it after every change (src/App.jsx:15-23) are not modelled. They are a browser API with JSON serialisation and React effect scheduling. The model starts from the component's initial empty list.
- `Date.now()` as the id source (src/App.jsx:54) is not modelled. The clock reading is the `newId` parameter of `HandleAddStudent`. Its precondition says the id is not in use when the form is in add mode, as millisecond timestamps of successive clicks are in practice.
- JSX rendering, styling, button labels and the truthiness test `editId ? 'Update Entry' : 'Add Entry'` (src/App.jsx:90-213) are presentation. Only the `onChange` handlers of the inputs are modelled, as the `Set…Input` methods.
- Text.LowerChar: lower-cases the ASCII letters only. JavaScript's `toLowerCase` follows the full Unicode case mapping, which is not modelled.
- React's batching of state updates and re-rendering are not modelled. Each handler is one atomic update of the fields, and `FilteredStudents` is a function of the current fields.
- JavaScript numbers are modelled as unbounded integers. Timestamps stay far below 2^53, so this makes no difference.
