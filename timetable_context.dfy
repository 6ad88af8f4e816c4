/**
  The shared "selected subjects" store of the timetable pages: adding a subject checks for a
  duplicate id and for a time conflict with every selected subject, removing deletes by id.
*/
module TimetableContext {
  import opened Common
  import opened SubjectUtils

  /** What `addSubject` returns to its caller. */
  datatype AddResult = AddResult(success: bool, message: string)

  const DuplicateMessage: string := "이미 추가된 과목입니다."
  const ConflictMessage: string := "다른 과목과 시간이 겹칩니다."

  function AddedMessage(name: string): string
  {
    "'" + name + "' 과목이 시간표에 추가되었습니다."
  }

  /** `selectedSubjects.some(s => s.id === id)`. */
  predicate IdSelected(selected: seq<Subject>, id: string)
  {
    exists k :: 0 <= k < |selected| && selected[k].id == id
  }

  /** `selectedSubjects.some(selected => hasSubjectConflict(subject, selected))`. */
  predicate ConflictsWithAny(subject: Subject, selected: seq<Subject>)
  {
    exists k :: 0 <= k < |selected| && SubjectsConflict(subject, selected[k])
  }

  /** The answer `addSubject` gives for `subject` when `selected` is the current list. */
  function AddOutcome(selected: seq<Subject>, subject: Subject): AddResult
  {
    if IdSelected(selected, subject.id) then AddResult(false, DuplicateMessage)
    else if ConflictsWithAny(subject, selected) then AddResult(false, ConflictMessage)
    else AddResult(true, AddedMessage(subject.name))
  }

  /** The list after the add: the subject is appended exactly when the add succeeds. */
  function AfterAdd(selected: seq<Subject>, subject: Subject): seq<Subject>
  {
    if AddOutcome(selected, subject).success then selected + [subject] else selected
  }

  /** The list after `removeSubject(id)`. */
  function AfterRemove(selected: seq<Subject>, id: string): seq<Subject>
  {
    Filter(selected, (s: Subject) => s.id != id)
  }

  /** Two selected subjects can sit side by side: different ids, no time conflict. */
  predicate Compatible(a: Subject, b: Subject)
  {
    a.id != b.id && !SubjectsConflict(a, b)
  }

  /** The store's invariant: ids are unique and no two selected subjects conflict. */
  predicate ValidSelection(selected: seq<Subject>)
  {
    Pairwise(selected, Compatible)
  }

  /** The add succeeds exactly for a new id without conflicts; a duplicate id is reported
      before a conflict; a refused add changes nothing and a successful one appends. */
  lemma AddOutcomeSpec(selected: seq<Subject>, subject: Subject)
    ensures AddOutcome(selected, subject).success <==>
      (forall k :: 0 <= k < |selected| ==> selected[k].id != subject.id)
      && (forall k :: 0 <= k < |selected| ==> !SubjectsConflict(subject, selected[k]))
    ensures IdSelected(selected, subject.id) ==> AddOutcome(selected, subject).message == DuplicateMessage
    ensures !IdSelected(selected, subject.id) && ConflictsWithAny(subject, selected) ==>
      AddOutcome(selected, subject).message == ConflictMessage
    ensures !AddOutcome(selected, subject).success ==> AfterAdd(selected, subject) == selected
    ensures AddOutcome(selected, subject).success ==>
      |AfterAdd(selected, subject)| == |selected| + 1 && AfterAdd(selected, subject)[|selected|] == subject
      && AfterAdd(selected, subject)[..|selected|] == selected
  {
    if AddOutcome(selected, subject).success {
      assert (selected + [subject])[..|selected|] == selected;
    }
  }

  /** Adding keeps the invariant. */
  lemma AddKeepsValid(selected: seq<Subject>, subject: Subject)
    requires ValidSelection(selected)
    ensures ValidSelection(AfterAdd(selected, subject))
  {
    if AddOutcome(selected, subject).success {
      var r := selected + [subject];
      forall i, j | 0 <= i < j < |r| ensures Compatible(r[i], r[j]) {
        if j == |selected| {
          assert r[j] == subject && r[i] == selected[i];
          SubjectsConflictSymmetric(selected[i], subject);
        } else {
          assert r[i] == selected[i] && r[j] == selected[j];
        }
      }
    }
  }

  /** Removing keeps every other subject, as often as it was there and in order, and keeps
      the invariant; removing an id that is not selected changes nothing. */
  lemma AfterRemoveSpec(selected: seq<Subject>, id: string)
    ensures forall s :: s in AfterRemove(selected, id) <==> s in selected && s.id != id
    ensures IsSubsequence(AfterRemove(selected, id), selected)
    ensures var r := AfterRemove(selected, id);
      forall s :: multiset(r)[s] == if s.id != id then multiset(selected)[s] else 0
    ensures !IdSelected(AfterRemove(selected, id), id)
    ensures !IdSelected(selected, id) ==> AfterRemove(selected, id) == selected
    ensures ValidSelection(selected) ==> ValidSelection(AfterRemove(selected, id))
  {
    var r := AfterRemove(selected, id);
    FilterMultiplicity(selected, (s: Subject) => s.id != id);
    assert forall k :: 0 <= k < |r| ==> r[k].id != id;
    if !IdSelected(selected, id) {
      FilterAll(selected, (s: Subject) => s.id != id);
    }
    if ValidSelection(selected) {
      FilterPairwise(selected, (s: Subject) => s.id != id, Compatible);
    }
  }

  /** The React context holding `selectedSubjects`. */
  class TimetableStore {
    var selectedSubjects: seq<Subject>

    predicate Valid()
      reads this
    {
      ValidSelection(selectedSubjects)
    }

    constructor ()
      ensures selectedSubjects == [] && Valid()
    {
      selectedSubjects := [];
    }

    /** `addSubject`: refuses a duplicate id, then a conflict; otherwise appends. */
    method AddSubject(subject: Subject) returns (result: AddResult)
      requires Valid()
      modifies this
      ensures Valid()
      ensures result == AddOutcome(old(selectedSubjects), subject)
      ensures selectedSubjects == AfterAdd(old(selectedSubjects), subject)
    {
      AddKeepsValid(selectedSubjects, subject);
      if IdSelected(selectedSubjects, subject.id) {
        return AddResult(false, DuplicateMessage);
      }
      if ConflictsWithAny(subject, selectedSubjects) {
        return AddResult(false, ConflictMessage);
      }
      selectedSubjects := selectedSubjects + [subject];
      return AddResult(true, AddedMessage(subject.name));
    }

    /** `removeSubject`: keeps the subjects with a different id. */
    method RemoveSubject(subjectId: string)
      requires Valid()
      modifies this
      ensures Valid()
      ensures selectedSubjects == AfterRemove(old(selectedSubjects), subjectId)
    {
      AfterRemoveSpec(selectedSubjects, subjectId);
      selectedSubjects := Filter(selectedSubjects, (s: Subject) => s.id != subjectId);
    }
  }
}
