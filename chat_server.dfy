/**
  The chat endpoint of the server: after the assistant has answered, it extracts the course
  codes the answer recommends (bracketed codes first), keeps the ones that belong to the
  subjects the client sent, and returns those subjects as the recommendation. It also
  derives, for every subject, the recommended school year shown in the prompt.

  The call to the language model is not modelled: the assistant's text is an input.
*/
module ChatServer {
  import opened Common
  import opened Text
  import opened CodeScan
  import opened SubjectUtils

  /** The recommendation part of the response: the chosen subjects and the full answer. */
  datatype Recommendation = Recommendation(subjects: seq<Subject>, explanation: string)

  /** The JSON body of a successful response; `recommendation` is `null` when `None`. */
  datatype ChatResponse = ChatResponse(message: string, recommendation: Option<Recommendation>)

  /** `parseRecommendedCourses` of the server: bracket, bold, strict, then loose codes; the
      first pattern that collects anything decides, de-duplicated in first-occurrence order. */
  method ParseRecommendedCourses(message: string) returns (codes: seq<string>)
    ensures codes == FirstTier(ServerTiers, message)
  {
    assert ServerTiers[1..] == ClientTiers;
    assert ClientTiers[1..] == [Strict, Loose];
    assert [Strict, Loose][1..] == [Loose];
    var bracketMatches := ExecAll(Bracket, message);
    if |bracketMatches| > 0 {
      return Unique(bracketMatches);
    }
    var boldMatches := ExecAll(Bold, message);
    if |boldMatches| > 0 {
      return Unique(boldMatches);
    }
    assert FirstTier(ServerTiers, message) == FirstTier([Strict, Loose], message);
    var matches := ExecAll(Strict, message);
    if |matches| > 0 {
      return Unique(matches);
    }
    assert FirstTier(ServerTiers, message) == FirstTier([Loose], message);
    var looseMatches := ExecAll(Loose, message);
    if |looseMatches| > 0 {
      return Unique(looseMatches);
    }
    assert [Loose][1..] == [];
    assert FirstTier([Loose], message) == FirstTier([], message);
    return [];
  }

  /** The position of the first `.` that is followed by a digit (`/\.(\d)/`). */
  function FirstDotDigit(code: string, i: nat): Option<nat>
    decreases |code| - i
  {
    if i + 1 >= |code| then None
    else if code[i] == '.' && IsDigit(code[i + 1]) then Some(i)
    else FirstDotDigit(code, i + 1)
  }

  /** `subject.code.match(/\.(\d)/)?.[1] || '?'`: the digit after the first `.` that is
      followed by one, or `?`. */
  function YearRecommended(code: string): string
  {
    match FirstDotDigit(code, 0)
    case Some(j) => if j + 1 < |code| then [code[j + 1]] else "?"
    case None => "?"
  }

  /** A `.` at `j` followed by a digit. */
  predicate DotDigitAt(code: string, j: int)
  {
    0 <= j && j + 1 < |code| && code[j] == '.' && IsDigit(code[j + 1])
  }

  lemma {:induction false} FirstDotDigitSpec(code: string, i: nat)
    ensures FirstDotDigit(code, i).Some? ==>
      var j := FirstDotDigit(code, i).value;
      i <= j && DotDigitAt(code, j) && forall k :: i <= k < j ==> !DotDigitAt(code, k)
    ensures FirstDotDigit(code, i).None? ==> forall k :: i <= k ==> !DotDigitAt(code, k)
    decreases |code| - i
  {
    if i + 1 < |code| && !DotDigitAt(code, i) {
      FirstDotDigitSpec(code, i + 1);
    }
  }

  /** The year is the digit after the leftmost "dot, digit" pair; without one it is `?`. */
  lemma YearRecommendedSpec(code: string)
    ensures (exists j :: DotDigitAt(code, j)) <==> YearRecommended(code) != "?"
    ensures forall j :: DotDigitAt(code, j) && (forall k :: 0 <= k < j ==> !DotDigitAt(code, k)) ==>
      |YearRecommended(code)| == 1 && YearRecommended(code)[0] == code[j + 1]
  {
    FirstDotDigitSpec(code, 0);
    if FirstDotDigit(code, 0).Some? {
      var j0 := FirstDotDigit(code, 0).value;
      assert YearRecommended(code) == [code[j0 + 1]];
      assert YearRecommended(code) != "?" by { assert IsDigit(YearRecommended(code)[0]); }
      forall j | DotDigitAt(code, j) && (forall k :: 0 <= k < j ==> !DotDigitAt(code, k))
        ensures j == j0
      {
      }
    }
  }

  /** For a well-formed course code the year is the first digit of its number. */
  lemma YearOfCourseCode(code: string)
    requires IsCourseCode(code)
    ensures YearRecommended(code) == [code[|code| - 5]] && IsDigit(code[|code| - 5])
  {
    FirstDotDigitSpec(code, 0);
    assert DotDigitAt(code, |code| - 6);
    assert forall k :: 0 <= k < |code| - 6 ==> IsUpper(code[k]) by {
      assert IsUpper(code[0]) && IsUpper(code[1]);
    }
  }

  /** The codes of the subjects the client sent (`availableCourseCodes`). */
  function AvailableCodes(subjects: seq<Subject>): seq<string>
  {
    seq(|subjects|, i requires 0 <= i < |subjects| => subjects[i].code)
  }

  /** Extraction is attempted only with a non-empty subject list and a reply that looks like
      a timetable. */
  predicate ShouldParse(subjects: seq<Subject>, message: string)
  {
    |subjects| > 0 && (Contains(message, "추천 시간표") || Contains(message, "시간표:"))
  }

  /** Parsed codes that name an offered subject (`validCodes`). */
  function ValidCodes(codes: seq<string>, subjects: seq<Subject>): seq<string>
  {
    Filter(codes, (c: string) => c in AvailableCodes(subjects))
  }

  /** The subjects the handler recommends for the assistant's `message`. */
  function RecommendedSubjects(subjects: seq<Subject>, message: string): seq<Subject>
  {
    if !ShouldParse(subjects, message) then []
    else
      var codes := FirstTier(ServerTiers, message);
      if codes == [] then []
      else
        var valid := ValidCodes(codes, subjects);
        Filter(subjects, (s: Subject) => s.code in valid)
  }

  /** The handler's result after the model has answered with `assistantMessage`. */
  method HandleChat(subjects: seq<Subject>, assistantMessage: string) returns (response: ChatResponse)
    ensures response.message == assistantMessage
    ensures response.recommendation.None? <==> RecommendedSubjects(subjects, assistantMessage) == []
    ensures response.recommendation.Some? ==>
      response.recommendation.value == Recommendation(RecommendedSubjects(subjects, assistantMessage), assistantMessage)
  {
    var recommendedSubjects: seq<Subject> := [];
    if |subjects| > 0 {
      if Contains(assistantMessage, "추천 시간표") || Contains(assistantMessage, "시간표:") {
        var recommendedCodes := ParseRecommendedCourses(assistantMessage);
        if |recommendedCodes| > 0 {
          var availableCourseCodes := AvailableCodes(subjects);
          var validCodes := Filter(recommendedCodes, (c: string) => c in availableCourseCodes);
          recommendedSubjects := Filter(subjects, (s: Subject) => s.code in validCodes);
        }
      }
    }
    var recommendation := if |recommendedSubjects| > 0 then Some(Recommendation(recommendedSubjects, assistantMessage)) else None;
    response := ChatResponse(assistantMessage, recommendation);
  }

  /** Recommended subjects are exactly the sent subjects whose code was extracted from the
      reply (every sent subject's code is available), each as often as it was sent, in their
      original order; nothing is recommended when extraction is not attempted. */
  lemma RecommendedSubjectsSpec(subjects: seq<Subject>, message: string)
    ensures var r := RecommendedSubjects(subjects, message);
      IsSubsequence(r, subjects)
      && (!ShouldParse(subjects, message) ==> r == [])
      && (ShouldParse(subjects, message) ==>
            (forall s :: s in r <==> s in subjects && s.code in FirstTier(ServerTiers, message))
            && forall s :: multiset(r)[s] == if s.code in FirstTier(ServerTiers, message) then multiset(subjects)[s] else 0)
  {
    var r := RecommendedSubjects(subjects, message);
    if ShouldParse(subjects, message) {
      var codes := FirstTier(ServerTiers, message);
      if codes != [] {
        var valid := ValidCodes(codes, subjects);
        forall s | s in subjects ensures s.code in valid <==> s.code in codes {
          var i :| 0 <= i < |subjects| && subjects[i] == s;
          assert AvailableCodes(subjects)[i] == s.code;
        }
        FilterMultiplicity(subjects, (s: Subject) => s.code in valid);
      }
    } else {
      assert r == [];
    }
    if r == [] { assert IsSubsequence(r, subjects) by { assert r == subjects[..0]; PrefixIsSubsequence(subjects, 0); } }
  }

  /** Every recommended subject's code has the course-code shape: two or three capital
      letters, a dot and five digits. */
  lemma RecommendedCodesWellFormed(subjects: seq<Subject>, message: string)
    ensures forall s :: s in RecommendedSubjects(subjects, message) ==> IsCourseCode(s.code)
  {
    RecommendedSubjectsSpec(subjects, message);
    FirstTierCodes(ServerTiers, message);
  }
}
