/**
  The rule-based suggestion page: the student's preferences narrow the semester's subjects
  down to candidates (major or basic requirement, English, no morning class, preferred
  days, no conflict with the selection), and a greedy pass over a shuffled candidate list
  picks at most five subjects within the remaining credit budget.

  The shuffle is an input: a permutation of the candidate positions.
*/
module AiSuggestPage {
  import opened Common
  import opened SubjectUtils
  import TimetableContext

  /** The preference form. `totalCredits` is the parsed number of the credits field. */
  datatype StudentPreference = StudentPreference(
    major: string,
    year: string,
    preferredDays: seq<int>,
    preferNoMorning: bool,
    totalCredits: int,
    preferEnglish: bool,
    interests: seq<string>)

  /** The form as the page first shows it. */
  const InitialPreference: StudentPreference :=
    StudentPreference("화학과", "2", [0, 2, 4], true, 18, false, [])

  const MaxSuggestions: nat := 5
  const MorningLimit: int := 10 * 60

  /** The subject belongs to the preferred major or is a basic requirement. */
  predicate MajorMatch(s: Subject, prefs: StudentPreference)
  {
    s.department == prefs.major || s.category == "기초필수"
  }

  predicate EnglishMatch(s: Subject, prefs: StudentPreference)
  {
    prefs.preferEnglish ==> s.isEnglish
  }

  /** Some meeting starts before 10:00. */
  predicate HasMorningClass(s: Subject)
  {
    exists k :: 0 <= k < |s.schedules| && s.schedules[k].startTime < MorningLimit
  }

  /** Some meeting falls on one of `days`. */
  predicate HasPreferredDay(s: Subject, days: seq<int>)
  {
    exists k :: 0 <= k < |s.schedules| && s.schedules[k].day in days
  }

  predicate TimeMatch(s: Subject, prefs: StudentPreference)
  {
    (prefs.preferNoMorning ==> !HasMorningClass(s))
    && (|prefs.preferredDays| > 0 ==> HasPreferredDay(s, prefs.preferredDays))
  }

  /** The three successive filters of `generateRecommendations`. */
  function Candidates(semesterSubjects: seq<Subject>, prefs: StudentPreference, selected: seq<Subject>): seq<Subject>
  {
    var byMajor := Filter(semesterSubjects, (s: Subject) => MajorMatch(s, prefs) && EnglishMatch(s, prefs));
    var byTime := Filter(byMajor, (s: Subject) => TimeMatch(s, prefs));
    Filter(byTime, (s: Subject) => !TimetableContext.ConflictsWithAny(s, selected))
  }

  /** Each candidate occurs as often as among the semester subjects. */
  lemma CandidatesCount(semesterSubjects: seq<Subject>, prefs: StudentPreference, selected: seq<Subject>)
    ensures var r := Candidates(semesterSubjects, prefs, selected);
      forall s :: multiset(r)[s] ==
        if MajorMatch(s, prefs) && EnglishMatch(s, prefs) && TimeMatch(s, prefs)
          && !TimetableContext.ConflictsWithAny(s, selected)
        then multiset(semesterSubjects)[s] else 0
  {
    var byMajor := Filter(semesterSubjects, (s: Subject) => MajorMatch(s, prefs) && EnglishMatch(s, prefs));
    var byTime := Filter(byMajor, (s: Subject) => TimeMatch(s, prefs));
    FilterMultiplicity(semesterSubjects, (s: Subject) => MajorMatch(s, prefs) && EnglishMatch(s, prefs));
    FilterMultiplicity(byMajor, (s: Subject) => TimeMatch(s, prefs));
    FilterMultiplicity(byTime, (s: Subject) => !TimetableContext.ConflictsWithAny(s, selected));
  }

  /** A candidate is a semester subject passing every filter, and every such subject is a
      candidate, as often as the semester lists it and in the semester's order. */
  lemma CandidatesSpec(semesterSubjects: seq<Subject>, prefs: StudentPreference, selected: seq<Subject>)
    ensures forall s :: s in Candidates(semesterSubjects, prefs, selected) <==>
      s in semesterSubjects && MajorMatch(s, prefs) && EnglishMatch(s, prefs) && TimeMatch(s, prefs)
      && forall k :: 0 <= k < |selected| ==> !SubjectsConflict(s, selected[k])
    ensures IsSubsequence(Candidates(semesterSubjects, prefs, selected), semesterSubjects)
    ensures var r := Candidates(semesterSubjects, prefs, selected);
      forall s :: multiset(r)[s] ==
        if MajorMatch(s, prefs) && EnglishMatch(s, prefs) && TimeMatch(s, prefs)
          && (forall k :: 0 <= k < |selected| ==> !SubjectsConflict(s, selected[k]))
        then multiset(semesterSubjects)[s] else 0
  {
    CandidatesCount(semesterSubjects, prefs, selected);
    var byMajor := Filter(semesterSubjects, (s: Subject) => MajorMatch(s, prefs) && EnglishMatch(s, prefs));
    var byTime := Filter(byMajor, (s: Subject) => TimeMatch(s, prefs));
    SubsequenceTransitive(Candidates(semesterSubjects, prefs, selected), byTime, byMajor);
    SubsequenceTransitive(Candidates(semesterSubjects, prefs, selected), byMajor, semesterSubjects);
  }

  /** The credits still free under the target. */
  function Remaining(prefs: StudentPreference, selected: seq<Subject>): real
  {
    prefs.totalCredits as real - TotalCredits(selected)
  }

  /** The subjects the greedy pass picks from `xs` when `count` subjects worth `credits`
      have been picked already: a subject is taken when it fits the budget and fewer than
      five are taken, and the pass stops at five. */
  function Greedy(xs: seq<Subject>, remaining: real, count: nat, credits: real): seq<Subject>
    decreases |xs|
  {
    if xs == [] then []
    else
      var x := xs[0];
      var take := credits + x.credits <= remaining && count < MaxSuggestions;
      var head := if take then [x] else [];
      var count' := if take then count + 1 else count;
      if count' >= MaxSuggestions then head
      else head + Greedy(xs[1..], remaining, count', if take then credits + x.credits else credits)
  }

  /** The picks keep the order of `xs` and never bring the count above five. */
  lemma {:induction false} GreedyOrderAndBound(xs: seq<Subject>, remaining: real, count: nat, credits: real)
    requires count < MaxSuggestions
    ensures IsSubsequence(Greedy(xs, remaining, count, credits), xs)
    ensures count + |Greedy(xs, remaining, count, credits)| <= MaxSuggestions
    decreases |xs|
  {
    if xs != [] {
      var x := xs[0];
      var take := credits + x.credits <= remaining && count < MaxSuggestions;
      var count' := if take then count + 1 else count;
      var r := Greedy(xs, remaining, count, credits);
      if count' >= MaxSuggestions {
        assert r == [x] && r[1..] == [];
      } else {
        var rest := Greedy(xs[1..], remaining, count', if take then credits + x.credits else credits);
        GreedyOrderAndBound(xs[1..], remaining, count', if take then credits + x.credits else credits);
        if take {
          assert r == [x] + rest && r[1..] == rest;
        } else {
          assert r == rest;
        }
      }
    }
  }

  lemma TotalCreditsCons(x: Subject, rest: seq<Subject>)
    ensures TotalCredits([x]) == x.credits
    ensures TotalCredits([x] + rest) == x.credits + TotalCredits(rest)
  {
    assert [] + [x] == [x];
    TotalCreditsSpec([], [x], x);
    TotalCreditsSpec([x], rest, x);
  }

  /** Picks that start within the budget stay within it. */
  lemma {:induction false} GreedyWithinBudget(xs: seq<Subject>, remaining: real, count: nat, credits: real)
    ensures Greedy(xs, remaining, count, credits) != [] ==>
      credits + TotalCredits(Greedy(xs, remaining, count, credits)) <= remaining
    decreases |xs|
  {
    if xs != [] {
      var x := xs[0];
      var take := credits + x.credits <= remaining && count < MaxSuggestions;
      var count' := if take then count + 1 else count;
      var credits' := if take then credits + x.credits else credits;
      var r := Greedy(xs, remaining, count, credits);
      if count' < MaxSuggestions {
        GreedyWithinBudget(xs[1..], remaining, count', credits');
        var rest := Greedy(xs[1..], remaining, count', credits');
        if take {
          assert r == [x] + rest;
          TotalCreditsCons(x, rest);
        } else {
          assert r == rest;
        }
      } else if take {
        assert r == [x];
        TotalCreditsCons(x, []);
      }
    }
  }

  lemma {:induction false} TotalCreditsNonNegative(xs: seq<Subject>)
    requires forall k :: 0 <= k < |xs| ==> xs[k].credits >= 0.0
    ensures TotalCredits(xs) >= 0.0
    decreases |xs|
  {
    if xs != [] {
      TotalCreditsNonNegative(xs[..|xs| - 1]);
    }
  }

  /** With no negative credit, the picks add up to a non-negative total. */
  lemma GreedyTotalNonNegative(xs: seq<Subject>, remaining: real, count: nat, credits: real)
    requires count < MaxSuggestions
    requires forall k :: 0 <= k < |xs| ==> xs[k].credits >= 0.0
    ensures TotalCredits(Greedy(xs, remaining, count, credits)) >= 0.0
  {
    var r := Greedy(xs, remaining, count, credits);
    GreedyOrderAndBound(xs, remaining, count, credits);
    SubsequenceElements(r, xs);
    forall k | 0 <= k < |r| ensures r[k].credits >= 0.0 {
      assert r[k] in xs;
    }
    TotalCreditsNonNegative(r);
  }

  /** A subject is passed over only when it does not fit: when fewer than five are picked
      and no credit is negative, every subject of `xs` is picked or would overflow the
      budget on top of the picks. */
  lemma {:induction false} GreedySkipsOnlyOverflow(xs: seq<Subject>, remaining: real, count: nat, credits: real)
    requires count < MaxSuggestions
    requires forall k :: 0 <= k < |xs| ==> xs[k].credits >= 0.0
    requires count + |Greedy(xs, remaining, count, credits)| < MaxSuggestions
    ensures forall k :: 0 <= k < |xs| ==>
      xs[k] in Greedy(xs, remaining, count, credits)
      || credits + TotalCredits(Greedy(xs, remaining, count, credits)) + xs[k].credits > remaining
    decreases |xs|
  {
    if xs != [] {
      var x := xs[0];
      var take := credits + x.credits <= remaining;
      var count' := if take then count + 1 else count;
      var credits' := if take then credits + x.credits else credits;
      var r := Greedy(xs, remaining, count, credits);
      GreedyStep(xs, remaining, count, credits);
      var rest := Greedy(xs[1..], remaining, count', credits');
      if take && count' >= MaxSuggestions {
        assert false;
      }
      assert r == (if take then [x] else []) + rest;
      GreedySkipsOnlyOverflow(xs[1..], remaining, count', credits');
      GreedyTotalNonNegative(xs[1..], remaining, count', credits');
      if take {
        TotalCreditsCons(x, rest);
      }
      assert credits + TotalCredits(r) == credits' + TotalCredits(rest);
      assert forall y :: y in rest ==> y in r;
      assert x in r || credits + TotalCredits(r) + x.credits > remaining;
      SkipsCombine(xs, r, rest, credits + TotalCredits(r), remaining);
    }
  }

  /** One step of the argument above: what holds for the tail after the picks `rest` holds
      for all of `xs` after the picks `r`, which contain `rest` and the same total. */
  lemma SkipsCombine(xs: seq<Subject>, r: seq<Subject>, rest: seq<Subject>, total: real, remaining: real)
    requires xs != []
    requires xs[0] in r || total + xs[0].credits > remaining
    requires forall y :: y in rest ==> y in r
    requires forall k :: 0 <= k < |xs[1..]| ==> xs[1..][k] in rest || total + xs[1..][k].credits > remaining
    ensures forall k :: 0 <= k < |xs| ==> xs[k] in r || total + xs[k].credits > remaining
  {
    forall k | 0 < k < |xs|
      ensures xs[k] in r || total + xs[k].credits > remaining
    {
      assert xs[k] == xs[1..][k - 1];
    }
  }

  /** `order` lists every position below `n` exactly once. */
  predicate IsPermutation(order: seq<nat>, n: nat)
  {
    |order| == n
    && (forall i :: 0 <= i < |order| ==> order[i] < n)
    && (forall i, j :: 0 <= i < j < |order| ==> order[i] != order[j])
  }

  /** The candidates in the shuffled order. */
  function Shuffled(candidates: seq<Subject>, order: seq<nat>): seq<Subject>
    requires forall i :: 0 <= i < |order| ==> order[i] < |candidates|
  {
    seq(|order|, i requires 0 <= i < |order| => candidates[order[i]])
  }

  /** What `generateRecommendations` returns for the shuffle `order`. */
  function Recommendations(semesterSubjects: seq<Subject>, prefs: StudentPreference, selected: seq<Subject>,
                           order: seq<nat>): seq<Subject>
    requires IsPermutation(order, |Candidates(semesterSubjects, prefs, selected)|)
  {
    Greedy(Shuffled(Candidates(semesterSubjects, prefs, selected), order), Remaining(prefs, selected), 0, 0.0)
  }

  /** Every recommendation passes the filters and avoids the selection; there are at most
      five, they keep the shuffled order, and together they fit the remaining credits. */
  lemma RecommendationsSpec(semesterSubjects: seq<Subject>, prefs: StudentPreference, selected: seq<Subject>,
                            order: seq<nat>)
    requires IsPermutation(order, |Candidates(semesterSubjects, prefs, selected)|)
    ensures var r := Recommendations(semesterSubjects, prefs, selected, order);
      |r| <= MaxSuggestions
      && IsSubsequence(r, Shuffled(Candidates(semesterSubjects, prefs, selected), order))
      && (r != [] ==> TotalCredits(r) <= Remaining(prefs, selected))
      && forall s :: s in r ==>
           s in semesterSubjects && MajorMatch(s, prefs) && EnglishMatch(s, prefs) && TimeMatch(s, prefs)
           && forall k :: 0 <= k < |selected| ==> !SubjectsConflict(s, selected[k])
  {
    var c := Candidates(semesterSubjects, prefs, selected);
    var xs := Shuffled(c, order);
    var r := Recommendations(semesterSubjects, prefs, selected, order);
    GreedyOrderAndBound(xs, Remaining(prefs, selected), 0, 0.0);
    GreedyWithinBudget(xs, Remaining(prefs, selected), 0, 0.0);
    SubsequenceElements(r, xs);
    CandidatesSpec(semesterSubjects, prefs, selected);
    forall s | s in r ensures s in c {
      var i :| 0 <= i < |xs| && xs[i] == s;
      assert s == c[order[i]];
    }
  }

  /** One step of the greedy pass, case by case. */
  lemma GreedyStep(xs: seq<Subject>, remaining: real, count: nat, credits: real)
    requires xs != [] && count < MaxSuggestions
    ensures credits + xs[0].credits <= remaining && count + 1 >= MaxSuggestions ==>
      Greedy(xs, remaining, count, credits) == [xs[0]]
    ensures credits + xs[0].credits <= remaining && count + 1 < MaxSuggestions ==>
      Greedy(xs, remaining, count, credits) == [xs[0]] + Greedy(xs[1..], remaining, count + 1, credits + xs[0].credits)
    ensures credits + xs[0].credits > remaining ==>
      Greedy(xs, remaining, count, credits) == Greedy(xs[1..], remaining, count, credits)
  {
    assert [] + Greedy(xs[1..], remaining, count, credits) == Greedy(xs[1..], remaining, count, credits);
  }

  /** The greedy loop of `generateRecommendations` over the shuffled candidates. */
  method PickGreedily(shuffled: seq<Subject>, remainingCredits: real) returns (recommendations: seq<Subject>)
    ensures recommendations == Greedy(shuffled, remainingCredits, 0, 0.0)
  {
    recommendations := [];
    var currentCredits := 0.0;
    var i := 0;
    while i < |shuffled|
      invariant 0 <= i <= |shuffled|
      invariant |recommendations| < MaxSuggestions
      invariant recommendations + Greedy(shuffled[i..], remainingCredits, |recommendations|, currentCredits)
        == Greedy(shuffled, remainingCredits, 0, 0.0)
    {
      var subject := shuffled[i];
      ghost var xs := shuffled[i..];
      assert xs[0] == subject && xs[1..] == shuffled[i + 1..];
      GreedyStep(xs, remainingCredits, |recommendations|, currentCredits);
      ghost var before := recommendations;
      ghost var creditsBefore := currentCredits;
      if currentCredits + subject.credits <= remainingCredits && |recommendations| < MaxSuggestions {
        recommendations := recommendations + [subject];
        currentCredits := currentCredits + subject.credits;
        if |recommendations| < MaxSuggestions {
          ghost var rest := Greedy(shuffled[i + 1..], remainingCredits, |recommendations|, currentCredits);
          assert Greedy(xs, remainingCredits, |before|, creditsBefore) == [subject] + rest;
          AppendAssoc(before, [subject], rest);
        }
      }
      if |recommendations| >= MaxSuggestions {
        break;
      }
      i := i + 1;
    }
    if i == |shuffled| {
      assert shuffled[i..] == [];
    }
  }

  /** `generateRecommendations`: the candidates, shuffled by `order`, then the greedy loop. */
  method GenerateRecommendations(semesterSubjects: seq<Subject>, prefs: StudentPreference, selected: seq<Subject>,
                                 order: seq<nat>) returns (recommendations: seq<Subject>)
    requires IsPermutation(order, |Candidates(semesterSubjects, prefs, selected)|)
    ensures recommendations == Recommendations(semesterSubjects, prefs, selected, order)
  {
    var filteredSubjects := Candidates(semesterSubjects, prefs, selected);
    var remainingCredits := Remaining(prefs, selected);
    var shuffled := Shuffled(filteredSubjects, order);
    recommendations := PickGreedily(shuffled, remainingCredits);
  }

  /** `xs` without any occurrence of `x`. */
  function Without<T(==)>(xs: seq<T>, x: T): seq<T>
  {
    Filter(xs, (y: T) => y != x)
  }

  /** `x` flipped in or out of `xs`: removed everywhere when present, appended otherwise. */
  function Toggle<T(==)>(xs: seq<T>, x: T): seq<T>
  {
    if x in xs then Without(xs, x) else xs + [x]
  }

  /** Toggling changes the membership of `x` and of nothing else. */
  lemma ToggleSpec<T>(xs: seq<T>, x: T)
    ensures x in Toggle(xs, x) <==> x !in xs
    ensures forall y :: y != x ==> (y in Toggle(xs, x) <==> y in xs)
  {
  }

  /** The alert of the page's own `addSubject`. */
  function AddAlert(selected: seq<Subject>, subject: Subject): string
  {
    if TimetableContext.IdSelected(selected, subject.id) then "이미 시간표에 추가된 과목입니다."
    else if TimetableContext.ConflictsWithAny(subject, selected) then TimetableContext.ConflictMessage
    else TimetableContext.AddedMessage(subject.name)
  }

  /** The page words the duplicate case differently but otherwise answers like the shared
      store. */
  lemma AddAlertSpec(selected: seq<Subject>, subject: Subject)
    ensures !TimetableContext.IdSelected(selected, subject.id) ==>
      AddAlert(selected, subject) == TimetableContext.AddOutcome(selected, subject).message
    ensures TimetableContext.IdSelected(selected, subject.id) ==>
      AddAlert(selected, subject) != TimetableContext.AddOutcome(selected, subject).message
  {
  }

  /** The page's state. */
  class AiSuggestState {
    var preferences: StudentPreference
    var semesterSubjects: seq<Subject>
    var aiSuggestions: seq<Subject>
    var selectedSubjects: seq<Subject>

    predicate Valid()
      reads this
    {
      TimetableContext.ValidSelection(selectedSubjects)
    }

    constructor ()
      ensures preferences == InitialPreference && semesterSubjects == [] && aiSuggestions == []
      ensures selectedSubjects == [] && Valid()
    {
      preferences := InitialPreference;
      semesterSubjects := [];
      aiSuggestions := [];
      selectedSubjects := [];
    }

    /** The semester effect: the semester's subjects once loaded, and no suggestions. */
    method LoadSemesterSubjects(allSubjects: seq<Subject>, semester: string)
      modifies this
      ensures |allSubjects| > 0 ==> semesterSubjects == FilterBySemester(allSubjects, semester) && aiSuggestions == []
      ensures |allSubjects| == 0 ==> semesterSubjects == old(semesterSubjects) && aiSuggestions == old(aiSuggestions)
      ensures preferences == old(preferences) && selectedSubjects == old(selectedSubjects)
    {
      if |allSubjects| > 0 {
        semesterSubjects := FilterBySemester(allSubjects, semester);
        aiSuggestions := [];
      }
    }

    /** `handleDaySelect`. */
    method DaySelect(day: int)
      modifies this
      ensures preferences == old(preferences).(preferredDays := Toggle(old(preferences.preferredDays), day))
      ensures semesterSubjects == old(semesterSubjects) && aiSuggestions == old(aiSuggestions)
      ensures selectedSubjects == old(selectedSubjects)
    {
      if day in preferences.preferredDays {
        preferences := preferences.(preferredDays := Without(preferences.preferredDays, day));
      } else {
        preferences := preferences.(preferredDays := preferences.preferredDays + [day]);
      }
    }

    /** `handleInterestToggle`. */
    method InterestToggle(interest: string)
      modifies this
      ensures preferences == old(preferences).(interests := Toggle(old(preferences.interests), interest))
      ensures semesterSubjects == old(semesterSubjects) && aiSuggestions == old(aiSuggestions)
      ensures selectedSubjects == old(selectedSubjects)
    {
      if interest in preferences.interests {
        preferences := preferences.(interests := Without(preferences.interests, interest));
      } else {
        preferences := preferences.(interests := preferences.interests + [interest]);
      }
    }

    /** `handleGenerateSuggestions` once its timer fires, with the shuffle `order`. */
    method GenerateSuggestions(order: seq<nat>)
      requires IsPermutation(order, |Candidates(semesterSubjects, preferences, selectedSubjects)|)
      modifies this
      ensures preferences == old(preferences) && semesterSubjects == old(semesterSubjects)
      ensures selectedSubjects == old(selectedSubjects)
      ensures aiSuggestions == Recommendations(semesterSubjects, preferences, selectedSubjects, order)
    {
      aiSuggestions := GenerateRecommendations(semesterSubjects, preferences, selectedSubjects, order);
    }

    /** `addSubject`: refuses a duplicate id, then a conflict; otherwise appends. */
    method AddSubject(subject: Subject) returns (alert: string)
      requires Valid()
      modifies this
      ensures Valid()
      ensures alert == AddAlert(old(selectedSubjects), subject)
      ensures selectedSubjects == TimetableContext.AfterAdd(old(selectedSubjects), subject)
      ensures preferences == old(preferences) && semesterSubjects == old(semesterSubjects)
      ensures aiSuggestions == old(aiSuggestions)
    {
      TimetableContext.AddKeepsValid(selectedSubjects, subject);
      if TimetableContext.IdSelected(selectedSubjects, subject.id) {
        return "이미 시간표에 추가된 과목입니다.";
      }
      if TimetableContext.ConflictsWithAny(subject, selectedSubjects) {
        return TimetableContext.ConflictMessage;
      }
      selectedSubjects := selectedSubjects + [subject];
      return TimetableContext.AddedMessage(subject.name);
    }
  }
}
