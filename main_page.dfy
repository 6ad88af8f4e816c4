/** The timetable main page: its own list of selected subjects, with an add that refuses a
    duplicate id or a time conflict (naming the conflicting subjects), a remove by id, and
    the search box listing at most 20 of the semester's subjects. */
module MainPage {
  import opened Common
  import opened Text
  import opened SubjectUtils
  import TimetableContext

  const DuplicateAlert: string := "이미 추가된 과목입니다."
  const ConflictPrefix: string := "다음 과목과 시간이 충돌합니다: "

  /** The alert for a conflict: the conflicting subjects' names, comma-separated. */
  function ConflictAlert(conflicting: seq<Subject>): string
  {
    ConflictPrefix + Join(Names(conflicting), ", ")
  }

  /** The alert `addSubject` raises for `subject`, `None` when it adds the subject. */
  function AddAlert(selected: seq<Subject>, subject: Subject): Option<string>
  {
    if TimetableContext.IdSelected(selected, subject.id) then Some(DuplicateAlert)
    else
      var report := CheckConflicts(subject, selected);
      if report.hasConflict then Some(ConflictAlert(report.conflictingSubjects)) else None
  }

  /** The selection after `addSubject`. */
  function AfterAdd(selected: seq<Subject>, subject: Subject): seq<Subject>
  {
    if AddAlert(selected, subject).None? then selected + [subject] else selected
  }

  /** The page refuses exactly what the shared store refuses and ends with the same list;
      a duplicate id is reported first, and a conflict alert names exactly the selected
      subjects that conflict, in their order. */
  lemma AddAlertSpec(selected: seq<Subject>, subject: Subject)
    ensures AddAlert(selected, subject).None? <==> TimetableContext.AddOutcome(selected, subject).success
    ensures AfterAdd(selected, subject) == TimetableContext.AfterAdd(selected, subject)
    ensures TimetableContext.IdSelected(selected, subject.id) ==> AddAlert(selected, subject) == Some(DuplicateAlert)
    ensures !TimetableContext.IdSelected(selected, subject.id) && AddAlert(selected, subject).Some? ==>
      var c := Filter(selected, (s: Subject) => SubjectsConflict(subject, s));
      c != [] && AddAlert(selected, subject) == Some(ConflictAlert(c))
      && forall s :: s in c <==> s in selected && SubjectsConflict(subject, s)
  {
  }

  /** Whether `query` occurs, ignoring case, in the code, the name or the professor. */
  predicate SearchMatches(s: Subject, query: string)
  {
    Contains(ToLower(s.code), ToLower(query))
    || Contains(ToLower(s.name), ToLower(query))
    || Contains(ToLower(s.professor), ToLower(query))
  }

  /** `searchResults`: the first 20 matching subjects of the semester. */
  function SearchResults(semesterSubjects: seq<Subject>, query: string): seq<Subject>
  {
    var matching := Filter(semesterSubjects, (s: Subject) => SearchMatches(s, query));
    if |matching| <= 20 then matching else matching[..20]
  }

  /** At most 20 results, each a match, in the semester's order; they are the first
      matches, and all of them when there are at most 20. */
  lemma SearchResultsSpec(semesterSubjects: seq<Subject>, query: string)
    ensures var r := SearchResults(semesterSubjects, query);
      var matching := Filter(semesterSubjects, (s: Subject) => SearchMatches(s, query));
      |r| <= 20 && IsSubsequence(r, semesterSubjects) && IsPrefix(r, matching)
      && (forall k :: 0 <= k < |r| ==> SearchMatches(r[k], query))
      && (|matching| <= 20 ==> r == matching)
  {
    var matching := Filter(semesterSubjects, (s: Subject) => SearchMatches(s, query));
    var r := SearchResults(semesterSubjects, query);
    if |matching| > 20 {
      PrefixIsSubsequence(matching, 20);
      SubsequenceTransitive(r, matching, semesterSubjects);
      assert forall k :: 0 <= k < |r| ==> r[k] == matching[k];
    }
  }

  /** The empty query lists the first 20 subjects of the semester. */
  lemma EmptyQueryListsFirst(semesterSubjects: seq<Subject>)
    ensures SearchResults(semesterSubjects, "") ==
      (if |semesterSubjects| <= 20 then semesterSubjects else semesterSubjects[..20])
  {
    forall k | 0 <= k < |semesterSubjects| ensures SearchMatches(semesterSubjects[k], "") {
      ContainsEmpty(ToLower(semesterSubjects[k].code));
    }
    FilterAll(semesterSubjects, (s: Subject) => SearchMatches(s, ""));
  }

  /** The page's selection state. */
  class MainPageState {
    var selectedSubjects: seq<Subject>

    predicate Valid()
      reads this
    {
      TimetableContext.ValidSelection(selectedSubjects)
    }

    constructor ()
      ensures selectedSubjects == [] && Valid()
    {
      selectedSubjects := [];
    }

    /** `addSubject`: returns the alert shown, `None` when the subject is added. */
    method AddSubject(subject: Subject) returns (alert: Option<string>)
      requires Valid()
      modifies this
      ensures Valid()
      ensures alert == AddAlert(old(selectedSubjects), subject)
      ensures selectedSubjects == AfterAdd(old(selectedSubjects), subject)
    {
      AddAlertSpec(selectedSubjects, subject);
      TimetableContext.AddKeepsValid(selectedSubjects, subject);
      if TimetableContext.IdSelected(selectedSubjects, subject.id) {
        return Some(DuplicateAlert);
      }
      var report := CheckConflicts(subject, selectedSubjects);
      if report.hasConflict {
        var conflictNames := Join(Names(report.conflictingSubjects), ", ");
        return Some(ConflictPrefix + conflictNames);
      }
      selectedSubjects := selectedSubjects + [subject];
      return None;
    }

    /** `removeSubject`: keeps the subjects with a different id. */
    method RemoveSubject(subjectId: string)
      requires Valid()
      modifies this
      ensures Valid()
      ensures selectedSubjects == TimetableContext.AfterRemove(old(selectedSubjects), subjectId)
    {
      TimetableContext.AfterRemoveSpec(selectedSubjects, subjectId);
      selectedSubjects := Filter(selectedSubjects, (s: Subject) => s.id != subjectId);
    }
  }
}
