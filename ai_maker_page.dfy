/**
  The AI timetable-maker page: a chat with the assistant, the client-side extraction of
  recommended course codes when the server sent no recommendation, and the "add every
  recommended subject" button.

  The HTTP round trip is not modelled: its outcome is an input, `None` standing for a
  failed request (network error or a non-OK status) and `Some(body)` for the decoded reply.
*/
module AiMakerPage {
  import opened Common
  import opened Text
  import opened CodeScan
  import opened SubjectUtils
  import opened TimetableContext
  import ChatServer

  datatype Role = SystemRole | UserRole | AssistantRole

  /** One chat line. */
  datatype Message = Message(role: Role, content: string)

  const SystemGreeting: string := "안녕하세요! 저는 당신의 시간표 작성을 도와드릴 AI 어시스턴트입니다. 전공, 학년, 듣고 싶은 수업, 오전 수업 선호 여부, 영어 강의 여부, 필수 과목, 원하는 총 학점 등을 알려주시면 최적의 시간표를 추천해 드릴게요."
  const AssistantGreeting: string := "안녕하세요! 저는 당신의 시간표 작성을 도와드릴 AI 어시스턴트입니다. 어떤 도움이 필요하신가요? 전공, 학년, 듣고 싶은 수업, 오전 수업 선호 여부, 영어 강의 여부, 필수 과목, 원하는 총 학점 등을 알려주시면 최적의 시간표를 추천해 드릴게요."
  const ErrorReply: string := "죄송합니다. 요청을 처리하는 중에 오류가 발생했습니다. 다시 시도해 주세요."

  /** The conversation the page starts with, and returns to on reset. */
  const InitialMessages: seq<Message> := [Message(SystemRole, SystemGreeting), Message(AssistantRole, AssistantGreeting)]

  /** `parseRecommendedCourses` of the page: bold, strict, then loose codes; there is no
      bracket tier. */
  method ParseRecommendedCourses(message: string) returns (codes: seq<string>)
    ensures codes == FirstTier(ClientTiers, message)
  {
    assert ClientTiers[1..] == [Strict, Loose];
    assert [Strict, Loose][1..] == [Loose];
    var boldMatches := ExecAll(Bold, message);
    if |boldMatches| > 0 {
      return Unique(boldMatches);
    }
    assert FirstTier(ClientTiers, message) == FirstTier([Strict, Loose], message);
    var matches := ExecAll(Strict, message);
    if |matches| > 0 {
      return Unique(matches);
    }
    assert FirstTier(ClientTiers, message) == FirstTier([Loose], message);
    var looseMatches := ExecAll(Loose, message);
    if |looseMatches| > 0 {
      return Unique(looseMatches);
    }
    assert [Loose][1..] == [];
    return [];
  }

  /** On the page, bold codes win over every other form. */
  lemma ClientBoldWins(s: string)
    requires AllMatches(Bold, s) != []
    ensures FirstTier(ClientTiers, s) == Unique(AllMatches(Bold, s))
  {
  }

  /** Without any bold code the page falls back to bare codes, then to loosely written ones. */
  lemma ClientFallsBack(s: string)
    requires AllMatches(Bold, s) == []
    ensures AllMatches(Strict, s) != [] ==> FirstTier(ClientTiers, s) == Unique(AllMatches(Strict, s))
    ensures AllMatches(Strict, s) == [] ==> FirstTier(ClientTiers, s) == Unique(AllMatches(Loose, s))
  {
    assert ClientTiers[1..] == [Strict, Loose];
    assert [Strict, Loose][1..] == [Loose];
    assert [Loose][1..] == [];
    if AllMatches(Strict, s) == [] {
      assert FirstTier(ClientTiers, s) == FirstTier([Loose], s);
      UniqueProperties(AllMatches(Loose, s));
    }
  }

  /** Whether a message is part of what is sent to the server. */
  predicate Sendable(m: Message)
  {
    m.role != SystemRole
  }

  /** `messagesToSend`: the history without system messages, then the new user message. */
  function MessagesToSend(history: seq<Message>, user: Message): seq<Message>
  {
    Filter(history, Sendable) + [user]
  }

  /** The request ends with the user's message, preceded by exactly the non-system messages
      of the history, each as often as it occurs there, in their original order. */
  lemma MessagesToSendSpec(history: seq<Message>, user: Message)
    ensures var r := MessagesToSend(history, user);
      |r| >= 1 && r[|r| - 1] == user
      && IsSubsequence(r[..|r| - 1], history)
      && (forall k :: 0 <= k < |r| - 1 ==> r[k].role != SystemRole)
      && (forall m :: m in r[..|r| - 1] <==> m in history && m.role != SystemRole)
      && (forall m :: multiset(r[..|r| - 1])[m] == if m.role != SystemRole then multiset(history)[m] else 0)
  {
    var f := Filter(history, Sendable);
    FilterMultiplicity(history, Sendable);
    assert MessagesToSend(history, user)[..|f|] == f;
  }

  /** From the initial conversation only the assistant's greeting is sent along. */
  lemma InitialRequest(user: Message)
    ensures MessagesToSend(InitialMessages, user) == [Message(AssistantRole, AssistantGreeting), user]
  {
    var tail := InitialMessages[1..];
    assert tail == [Message(AssistantRole, AssistantGreeting)] && tail[1..] == [];
    assert Filter(tail, Sendable) == [Message(AssistantRole, AssistantGreeting)] + Filter(tail[1..], Sendable);
  }

  /** The assistant line appended after a request: the reply's text or the apology. */
  function ReplyMessage(reply: Option<ChatServer.ChatResponse>): Message
  {
    match reply
    case Some(body) => Message(AssistantRole, body.message)
    case None => Message(AssistantRole, ErrorReply)
  }

  /** The page parses the reply itself only when it speaks of a recommendation. */
  predicate MentionsRecommendation(message: string)
  {
    Contains(message, "추천 시간표") || Contains(message, "추천 과목")
  }

  /** The recommendation the page derives on its own from `message`, if any. */
  function FallbackRecommendation(message: string, semesterSubjects: seq<Subject>): Option<ChatServer.Recommendation>
  {
    if !MentionsRecommendation(message) then None
    else
      var codes := FirstTier(ClientTiers, message);
      if codes == [] then None
      else
        var recommended := Filter(semesterSubjects, (s: Subject) => s.code in codes);
        if recommended == [] then None else Some(ChatServer.Recommendation(recommended, message))
  }

  /** The fallback selects exactly the semester's subjects whose code was extracted, each
      as often as the semester lists it, in order, explained by the whole reply; it yields
      nothing exactly when the reply does not mention a recommendation or names none of the
      semester's codes. */
  lemma FallbackRecommendationSpec(message: string, semesterSubjects: seq<Subject>)
    ensures var r := FallbackRecommendation(message, semesterSubjects);
      r.None? <==>
        !MentionsRecommendation(message)
        || forall k :: 0 <= k < |semesterSubjects| ==> semesterSubjects[k].code !in FirstTier(ClientTiers, message)
    ensures var r := FallbackRecommendation(message, semesterSubjects);
      r.Some? ==>
        r.value.explanation == message && |r.value.subjects| > 0
        && IsSubsequence(r.value.subjects, semesterSubjects)
        && (forall s :: s in r.value.subjects <==> s in semesterSubjects && s.code in FirstTier(ClientTiers, message))
        && forall s :: multiset(r.value.subjects)[s] ==
             if s.code in FirstTier(ClientTiers, message) then multiset(semesterSubjects)[s] else 0
  {
    var codes := FirstTier(ClientTiers, message);
    FilterMultiplicity(semesterSubjects, (s: Subject) => s.code in codes);
  }

  /** The client-side parsing branch of `handleSendMessage`. */
  method ParseRecommendation(message: string, semesterSubjects: seq<Subject>)
    returns (result: Option<ChatServer.Recommendation>)
    ensures result == FallbackRecommendation(message, semesterSubjects)
  {
    result := None;
    if Contains(message, "추천 시간표") || Contains(message, "추천 과목") {
      var recommendedCodes := ParseRecommendedCourses(message);
      if |recommendedCodes| > 0 {
        var recommendedSubjects := Filter(semesterSubjects, (s: Subject) => s.code in recommendedCodes);
        if |recommendedSubjects| > 0 {
          result := Some(ChatServer.Recommendation(recommendedSubjects, message));
        }
      }
    }
  }

  /** The recommendation shown after a request. */
  function NextRecommendation(current: Option<ChatServer.Recommendation>, reply: Option<ChatServer.ChatResponse>,
                              semesterSubjects: seq<Subject>): Option<ChatServer.Recommendation>
  {
    match reply
    case None => current
    case Some(body) =>
      if body.recommendation.Some? && |body.recommendation.value.subjects| > 0 then body.recommendation
      else
        match FallbackRecommendation(body.message, semesterSubjects)
        case Some(r) => Some(r)
        case None => current
  }

  /** A failed request keeps the recommendation, a non-empty server recommendation replaces
      it, and any change installs a recommendation with at least one subject. */
  lemma NextRecommendationSpec(current: Option<ChatServer.Recommendation>, reply: Option<ChatServer.ChatResponse>,
                               semesterSubjects: seq<Subject>)
    ensures reply.None? ==> NextRecommendation(current, reply, semesterSubjects) == current
    ensures reply.Some? && reply.value.recommendation.Some? && |reply.value.recommendation.value.subjects| > 0 ==>
      NextRecommendation(current, reply, semesterSubjects) == reply.value.recommendation
    ensures NextRecommendation(current, reply, semesterSubjects) != current ==>
      NextRecommendation(current, reply, semesterSubjects).Some?
      && |NextRecommendation(current, reply, semesterSubjects).value.subjects| > 0
  {
    if reply.Some? {
      FallbackRecommendationSpec(reply.value.message, semesterSubjects);
    }
  }

  /** What "add all" leaves behind: the new selection, how many were added, and the names
      of the refused subjects. */
  datatype AddAllOutcome = AddAllOutcome(selected: seq<Subject>, added: nat, failedNames: seq<string>)

  /** Adding `subjects` one after another to `selected`. */
  function AddAll(selected: seq<Subject>, subjects: seq<Subject>): AddAllOutcome
    decreases |subjects|
  {
    if subjects == [] then AddAllOutcome(selected, 0, [])
    else
      var x := subjects[0];
      var rest := AddAll(AfterAdd(selected, x), subjects[1..]);
      if AddOutcome(selected, x).success then AddAllOutcome(rest.selected, rest.added + 1, rest.failedNames)
      else AddAllOutcome(rest.selected, rest.added, [x.name] + rest.failedNames)
  }

  lemma IdSelectedInPrefix(a: seq<Subject>, b: seq<Subject>, id: string)
    requires IsPrefix(a, b) && IdSelected(a, id)
    ensures IdSelected(b, id)
  {
    var k :| 0 <= k < |a| && a[k].id == id;
    assert b[k] == a[k];
  }

  /** One step of `AddAll`: the first subject is offered, then the rest to the new list. */
  lemma AddAllStep(selected: seq<Subject>, subjects: seq<Subject>)
    requires subjects != []
    ensures var rest := AddAll(AfterAdd(selected, subjects[0]), subjects[1..]);
      AddAll(selected, subjects).selected == rest.selected
      && AddAll(selected, subjects).added == rest.added + (if AddOutcome(selected, subjects[0]).success then 1 else 0)
      && AddAll(selected, subjects).failedNames ==
           (if AddOutcome(selected, subjects[0]).success then [] else [subjects[0].name]) + rest.failedNames
  {
  }

  lemma PrefixTransitive(a: seq<Subject>, b: seq<Subject>, c: seq<Subject>)
    requires IsPrefix(a, b) && IsPrefix(b, c)
    ensures IsPrefix(a, c)
  {
    assert c[..|b|][..|a|] == c[..|a|];
  }

  /** The counts add up to the number of subjects, and the old selection stays in front,
      followed by `added` of the offered subjects, in the order they were offered. */
  lemma {:induction false} AddAllCounts(selected: seq<Subject>, subjects: seq<Subject>)
    ensures var out := AddAll(selected, subjects);
      out.added + |out.failedNames| == |subjects|
      && IsPrefix(selected, out.selected) && |out.selected| == |selected| + out.added
      && IsSubsequence(out.selected[|selected|..], subjects)
    decreases |subjects|
  {
    if subjects == [] {
      assert selected[..|selected|] == selected;
    } else {
      var x := subjects[0];
      var next := AfterAdd(selected, x);
      var out := AddAll(selected, subjects);
      AddAllStep(selected, subjects);
      AddAllCounts(next, subjects[1..]);
      AddOutcomeSpec(selected, x);
      PrefixTransitive(selected, next, out.selected);
      var tail := out.selected[|selected|..];
      var rest := out.selected[|next|..];
      if AddOutcome(selected, x).success {
        assert tail[0] == x && tail[1..] == rest;
      } else {
        assert tail == rest;
      }
    }
  }

  /** Offering `a` and then `b` is offering `a + b`: the second run starts from the first
      run's selection, and the counts and names add up. */
  lemma {:induction false} AddAllAppend(selected: seq<Subject>, a: seq<Subject>, b: seq<Subject>)
    ensures var first := AddAll(selected, a);
      var second := AddAll(first.selected, b);
      AddAll(selected, a + b)
        == AddAllOutcome(second.selected, first.added + second.added, first.failedNames + second.failedNames)
    decreases |a|
  {
    if a == [] {
      assert a + b == b;
    } else {
      assert (a + b)[0] == a[0] && (a + b)[1..] == a[1..] + b;
      AddAllStep(selected, a + b);
      AddAllStep(selected, a);
      var next := AfterAdd(selected, a[0]);
      AddAllAppend(next, a[1..], b);
      var first := AddAll(next, a[1..]);
      var second := AddAll(first.selected, b);
      if !AddOutcome(selected, a[0]).success {
        AppendAssoc([a[0].name], first.failedNames, second.failedNames);
      }
    }
  }

  /** Each subject is judged at its turn: after the first `k + 1` offers the selection is
      the one after the first `k`, with the `k`-th subject appended exactly when the store
      accepts it against that selection, and the count grows by one exactly then. */
  lemma AddAllTurn(selected: seq<Subject>, subjects: seq<Subject>, k: nat)
    requires k < |subjects|
    ensures var before := AddAll(selected, subjects[..k]);
      var after := AddAll(selected, subjects[..k + 1]);
      var ok := AddOutcome(before.selected, subjects[k]).success;
      after.selected == (if ok then before.selected + [subjects[k]] else before.selected)
      && after.added == before.added + (if ok then 1 else 0)
  {
    assert subjects[..k + 1] == subjects[..k] + [subjects[k]];
    AddAllAppend(selected, subjects[..k], [subjects[k]]);
    var before := AddAll(selected, subjects[..k]);
    AddAllStep(before.selected, [subjects[k]]);
    assert [subjects[k]][1..] == [];
  }

  /** The refused names are those of the offered subjects, in the order they were offered. */
  lemma {:induction false} AddAllFailedInOrder(selected: seq<Subject>, subjects: seq<Subject>)
    ensures IsSubsequence(AddAll(selected, subjects).failedNames, Names(subjects))
    decreases |subjects|
  {
    if subjects != [] {
      AddAllStep(selected, subjects);
      AddAllFailedInOrder(AfterAdd(selected, subjects[0]), subjects[1..]);
      assert Names(subjects)[1..] == Names(subjects[1..]);
      assert Names(subjects)[0] == subjects[0].name;
    }
  }

  /** Adding several subjects keeps the store's invariant. */
  lemma {:induction false} AddAllKeepsValid(selected: seq<Subject>, subjects: seq<Subject>)
    requires ValidSelection(selected)
    ensures ValidSelection(AddAll(selected, subjects).selected)
    decreases |subjects|
  {
    if subjects != [] {
      AddAllStep(selected, subjects);
      AddKeepsValid(selected, subjects[0]);
      AddAllKeepsValid(AfterAdd(selected, subjects[0]), subjects[1..]);
    }
  }

  /** `handleAddAllSubjects` as written: every `addSubject` call checks the selection of the
      render in which the button was pressed, while the accepted subjects pile up through the
      state updater; recommended subjects are never checked against each other. */
  function StaleAddAll(rendered: seq<Subject>, subjects: seq<Subject>): AddAllOutcome
  {
    var accepted := Filter(subjects, (x: Subject) => AddOutcome(rendered, x).success);
    var refused := Filter(subjects, (x: Subject) => !AddOutcome(rendered, x).success);
    AddAllOutcome(rendered + accepted, |accepted|, Names(refused))
  }

  /** A single subject is added alike by both readings. */
  lemma StaleAddOneAgrees(rendered: seq<Subject>, x: Subject)
    ensures StaleAddAll(rendered, [x]) == AddAll(rendered, [x])
  {
    assert [x][1..] == [];
    var refused := Filter([x], (y: Subject) => !AddOutcome(rendered, y).success);
    assert Names(refused) == if AddOutcome(rendered, x).success then [] else [x.name];
  }

  /** Two recommended subjects whose Monday lectures overlap from 10:00 to 10:30. */
  const OverlapA: Subject := Subject("1", "CS.10001", "A", "", "", 3.0, "", [Schedule(0, 540, 630)], false, None)
  const OverlapB: Subject := Subject("2", "CS.10002", "B", "", "", 3.0, "", [Schedule(0, 600, 690)], false, None)

  /** The two subjects conflict, and each alone may be added to an empty timetable. */
  lemma OverlapPair()
    ensures SubjectsConflict(OverlapA, OverlapB) && ConflictsWithAny(OverlapB, [OverlapA])
    ensures AddOutcome([], OverlapA).success && AddOutcome([], OverlapB).success
    ensures !AddOutcome([OverlapA], OverlapB).success
  {
    assert HasTimeConflict(OverlapA.schedules[0], OverlapB.schedules[0]);
    assert HasTimeConflict(OverlapB.schedules[0], OverlapA.schedules[0]);
    assert [OverlapA][0] == OverlapA;
  }

  /** Offered to an empty timetable, the stale reading appends both subjects and breaks the
      store's invariant. */
  lemma StaleAddAllBreaksValid()
    ensures ValidSelection([])
    ensures StaleAddAll([], [OverlapA, OverlapB]).selected == [OverlapA, OverlapB]
    ensures !ValidSelection(StaleAddAll([], [OverlapA, OverlapB]).selected)
  {
    OverlapPair();
    var both := [OverlapA, OverlapB];
    assert both[1..] == [OverlapB] && [OverlapB][1..] == [];
    assert !Compatible(both[0], both[1]);
  }

  /** The sequential reading adds the first subject and refuses the second by name. */
  lemma SequentialRefusesOverlap()
    ensures AddAll([], [OverlapA, OverlapB]) == AddAllOutcome([OverlapA], 1, ["B"])
  {
    OverlapPair();
    assert [OverlapA, OverlapB][1..] == [OverlapB] && [OverlapB][1..] == [];
    assert AfterAdd([], OverlapA) == [OverlapA] && AfterAdd([OverlapA], OverlapB) == [OverlapA];
    AddAllStep([OverlapA], [OverlapB]);
    AddAllStep([], [OverlapA, OverlapB]);
  }

  /** Afterwards every offered subject's id is selected unless its name is among the
      refused ones. */
  lemma {:induction false} AddAllCovers(selected: seq<Subject>, subjects: seq<Subject>)
    ensures forall k :: 0 <= k < |subjects| ==>
      IdSelected(AddAll(selected, subjects).selected, subjects[k].id)
      || subjects[k].name in AddAll(selected, subjects).failedNames
    decreases |subjects|
  {
    if subjects != [] {
      var x := subjects[0];
      var next := AfterAdd(selected, x);
      var out := AddAll(selected, subjects);
      AddAllStep(selected, subjects);
      AddAllCovers(next, subjects[1..]);
      AddAllCounts(next, subjects[1..]);
      AddOutcomeSpec(selected, x);
      forall k | 0 <= k < |subjects|
        ensures IdSelected(out.selected, subjects[k].id) || subjects[k].name in out.failedNames
      {
        if k == 0 {
          if AddOutcome(selected, x).success {
            assert next[|selected|] == x;
            IdSelectedInPrefix(next, out.selected, x.id);
          } else if IdSelected(selected, x.id) {
            assert next == selected;
            IdSelectedInPrefix(selected, out.selected, x.id);
          } else {
            assert out.failedNames[0] == x.name;
          }
        } else {
          assert subjects[k] == subjects[1..][k - 1];
        }
      }
    }
  }

  const AddedSuffix: string := "개 과목이 시간표에 추가되었습니다.\n"
  const FailedSuffix: string := "개 과목은 추가할 수 없습니다.\n"

  /** The first line of the alert, present when something was added. */
  function AddedPart(added: nat): string
  {
    if added > 0 then NatToString(added) + AddedSuffix else ""
  }

  /** The refused names, comma-separated in parentheses. */
  function Enclosed(names: seq<string>): string
  {
    "(" + Join(names, ", ") + ")"
  }

  /** The rest of the alert, present when something was refused. */
  function FailedPart(failedNames: seq<string>): string
  {
    if |failedNames| > 0 then NatToString(|failedNames|) + FailedSuffix + Enclosed(failedNames) else ""
  }

  /** The alert shown after "add all". */
  function ResultMessage(added: nat, failedNames: seq<string>): string
  {
    AddedPart(added) + FailedPart(failedNames)
  }

  /** The alert is empty exactly when nothing was attempted. */
  lemma ResultMessageEmpty(added: nat, failedNames: seq<string>)
    ensures ResultMessage(added, failedNames) == "" <==> added == 0 && failedNames == []
  {
    assert |ResultMessage(added, failedNames)| == |AddedPart(added)| + |FailedPart(failedNames)|;
  }

  /** When something was added the alert opens with that number, in decimal. */
  lemma ResultMessageOpensWithCount(added: nat, failedNames: seq<string>)
    requires added > 0
    ensures IsPrefix(NatToString(added), ResultMessage(added, failedNames))
    ensures DigitsValue(NatToString(added)) == added
  {
    DigitsValueOfNatToString(added);
    PrefixOfAppend(NatToString(added), AddedSuffix, FailedPart(failedNames));
  }

  /** When something was refused the alert closes with the refused names, comma-separated
      in parentheses. */
  lemma ResultMessageClosesWithNames(added: nat, failedNames: seq<string>)
    requires |failedNames| > 0
    ensures var r := ResultMessage(added, failedNames);
      |Enclosed(failedNames)| <= |r| && r[|r| - |Enclosed(failedNames)|..] == Enclosed(failedNames)
  {
    SuffixOfAppend(AddedPart(added), NatToString(|failedNames|) + FailedSuffix, Enclosed(failedNames));
  }

  /** Builds the alert text the way the handler does, line by line. */
  method ComposeResultMessage(addedCount: nat, failedCount: nat, conflictingSubjects: seq<string>)
    returns (resultMessage: string)
    requires failedCount == |conflictingSubjects|
    ensures resultMessage == ResultMessage(addedCount, conflictingSubjects)
  {
    resultMessage := "";
    if addedCount > 0 {
      var addedLine := NatToString(addedCount) + AddedSuffix;
      assert resultMessage + addedLine == addedLine;
      resultMessage := resultMessage + addedLine;
    }
    if failedCount > 0 {
      var countLine := NatToString(failedCount) + FailedSuffix;
      AppendAssoc(resultMessage, countLine, Enclosed(conflictingSubjects));
      resultMessage := resultMessage + countLine;
      resultMessage := resultMessage + Enclosed(conflictingSubjects);
    }
  }

  /** `AddAll` with the loop's accumulators: from index `i` on, with the counts and refused
      names gathered so far. */
  ghost function OfferFrom(selected: seq<Subject>, subjects: seq<Subject>, i: nat, added: nat,
                           failed: seq<string>): AddAllOutcome
    requires i <= |subjects|
    decreases |subjects| - i
  {
    if i == |subjects| then AddAllOutcome(selected, added, failed)
    else
      var ok := AddOutcome(selected, subjects[i]).success;
      OfferFrom(AfterAdd(selected, subjects[i]), subjects, i + 1, if ok then added + 1 else added,
                if ok then failed else failed + [subjects[i].name])
  }

  /** The accumulated outcome is that of `AddAll` on the rest, after the counts and names so far. */
  lemma {:induction false} OfferFromIsAddAll(selected: seq<Subject>, subjects: seq<Subject>, i: nat, added: nat,
                                             failed: seq<string>)
    requires i <= |subjects|
    ensures var out := AddAll(selected, subjects[i..]);
      OfferFrom(selected, subjects, i, added, failed) == AddAllOutcome(out.selected, added + out.added, failed + out.failedNames)
    decreases |subjects| - i
  {
    var rest := subjects[i..];
    if i == |subjects| {
      assert rest == [];
    } else {
      assert rest[0] == subjects[i] && rest[1..] == subjects[i + 1..];
      AddAllStep(selected, rest);
      var ok := AddOutcome(selected, subjects[i]).success;
      var failed' := if ok then failed else failed + [subjects[i].name];
      OfferFromIsAddAll(AfterAdd(selected, subjects[i]), subjects, i + 1, if ok then added + 1 else added, failed');
      var next := AddAll(AfterAdd(selected, subjects[i]), subjects[i + 1..]);
      if !ok {
        AppendAssoc(failed, [subjects[i].name], next.failedNames);
      }
    }
  }

  /** The loop of `handleAddAllSubjects`: the subjects are offered to the store one after
      another; the counts and the refused names are those of `AddAll`. */
  method OfferAll(store: TimetableStore, subjects: seq<Subject>)
    returns (addedCount: nat, failedCount: nat, conflictingSubjects: seq<string>)
    requires store.Valid()
    modifies store
    ensures store.Valid()
    ensures var out := AddAll(old(store.selectedSubjects), subjects);
      store.selectedSubjects == out.selected && addedCount == out.added
      && conflictingSubjects == out.failedNames && failedCount == |conflictingSubjects|
  {
    ghost var start := store.selectedSubjects;
    addedCount := 0;
    failedCount := 0;
    conflictingSubjects := [];
    var i := 0;
    while i < |subjects|
      invariant 0 <= i <= |subjects|
      invariant store.Valid()
      invariant failedCount == |conflictingSubjects|
      invariant OfferFrom(store.selectedSubjects, subjects, i, addedCount, conflictingSubjects)
        == OfferFrom(start, subjects, 0, 0, [])
    {
      var subject := subjects[i];
      var result := store.AddSubject(subject);
      if result.success {
        addedCount := addedCount + 1;
      } else {
        failedCount := failedCount + 1;
        conflictingSubjects := conflictingSubjects + [subject.name];
      }
      i := i + 1;
    }
    OfferFromIsAddAll(start, subjects, 0, 0, []);
    assert subjects[0..] == subjects;
  }

  /** The chat page's own state. */
  class AiMakerChat {
    var messages: seq<Message>
    var inputMessage: string
    var isLoading: bool
    var semesterSubjects: seq<Subject>
    var recommendation: Option<ChatServer.Recommendation>

    constructor ()
      ensures messages == InitialMessages && inputMessage == "" && !isLoading
      ensures semesterSubjects == [] && recommendation.None?
    {
      messages := InitialMessages;
      inputMessage := "";
      isLoading := false;
      semesterSubjects := [];
      recommendation := None;
    }

    /** Typing into the input box. */
    method SetInput(text: string)
      modifies this
      ensures inputMessage == text
      ensures messages == old(messages) && isLoading == old(isLoading)
      ensures semesterSubjects == old(semesterSubjects) && recommendation == old(recommendation)
    {
      inputMessage := text;
    }

    /** The semester effect: once subjects are loaded, keep those offered in `semester`. */
    method LoadSemesterSubjects(allSubjects: seq<Subject>, semester: string)
      modifies this
      ensures |allSubjects| > 0 ==> semesterSubjects == FilterBySemester(allSubjects, semester)
      ensures |allSubjects| == 0 ==> semesterSubjects == old(semesterSubjects)
      ensures messages == old(messages) && inputMessage == old(inputMessage)
      ensures isLoading == old(isLoading) && recommendation == old(recommendation)
    {
      if |allSubjects| > 0 {
        semesterSubjects := FilterBySemester(allSubjects, semester);
      }
    }

    /** `handleSendMessage` with the request's outcome `reply`; returns the messages sent,
        `None` when nothing is sent. */
    method SendMessage(reply: Option<ChatServer.ChatResponse>) returns (request: Option<seq<Message>>)
      modifies this
      ensures IsBlank(old(inputMessage)) ==>
        request.None? && messages == old(messages) && inputMessage == old(inputMessage)
        && isLoading == old(isLoading) && recommendation == old(recommendation)
      ensures !IsBlank(old(inputMessage)) ==>
        var user := Message(UserRole, old(inputMessage));
        request == Some(MessagesToSend(old(messages), user))
        && messages == old(messages) + [user, ReplyMessage(reply)]
        && inputMessage == "" && !isLoading
        && recommendation == NextRecommendation(old(recommendation), reply, old(semesterSubjects))
      ensures semesterSubjects == old(semesterSubjects)
    {
      BlankIffTrimEmpty(inputMessage);
      if JsTrim(inputMessage) == "" {
        return None;
      }
      var userMessage := Message(UserRole, inputMessage);
      var history := messages;
      messages := messages + [userMessage];
      inputMessage := "";
      isLoading := true;
      var messagesToSend := Filter(history, Sendable) + [userMessage];
      request := Some(messagesToSend);
      assert messages + [ReplyMessage(reply)] == history + [userMessage, ReplyMessage(reply)];
      match reply {
        case None =>
          messages := messages + [Message(AssistantRole, ErrorReply)];
        case Some(data) =>
          messages := messages + [Message(AssistantRole, data.message)];
          if data.recommendation.Some? && |data.recommendation.value.subjects| > 0 {
            recommendation := data.recommendation;
          } else {
            var parsed := ParseRecommendation(data.message, semesterSubjects);
            if parsed.Some? {
              recommendation := parsed;
            }
          }
      }
      isLoading := false;
    }

    /** `handleResetChat`: the initial conversation and no recommendation. */
    method ResetChat()
      modifies this
      ensures messages == InitialMessages && recommendation.None?
      ensures inputMessage == old(inputMessage) && isLoading == old(isLoading)
      ensures semesterSubjects == old(semesterSubjects)
    {
      messages := InitialMessages;
      recommendation := None;
    }

    /** `handleAddSubject`: one subject, with the store's answer as the alert. */
    method AddOne(store: TimetableStore, subject: Subject) returns (alert: string)
      requires store.Valid()
      modifies store
      ensures store.Valid()
      ensures alert == AddOutcome(old(store.selectedSubjects), subject).message
      ensures store.selectedSubjects == AfterAdd(old(store.selectedSubjects), subject)
    {
      var result := store.AddSubject(subject);
      alert := result.message;
    }

    /** `handleAddAllSubjects`: every recommended subject is offered to the store in turn;
        the alert reports the counts and the refused names. Nothing happens without a
        non-empty recommendation. */
    method AddAllSubjects(store: TimetableStore) returns (alert: Option<string>)
      requires store.Valid()
      modifies store
      ensures store.Valid()
      ensures recommendation.None? || |recommendation.value.subjects| == 0 ==>
        alert.None? && store.selectedSubjects == old(store.selectedSubjects)
      ensures recommendation.Some? && |recommendation.value.subjects| > 0 ==>
        var out := AddAll(old(store.selectedSubjects), recommendation.value.subjects);
        store.selectedSubjects == out.selected
        && alert == Some(ResultMessage(out.added, out.failedNames))
    {
      if recommendation.None? || |recommendation.value.subjects| == 0 {
        return None;
      }
      var subjects := recommendation.value.subjects;
      var addedCount, failedCount, conflictingSubjects := OfferAll(store, subjects);
      var resultMessage := ComposeResultMessage(addedCount, failedCount, conflictingSubjects);
      alert := Some(resultMessage);
    }
  }
}
