/** The incremental review crawler of `otl_crawl/otl_crawling.py`.

    The browser is replaced by data: a course list is a sequence of `CourseUnit`s, each
    saying what opening that course's detail panel produced, and every review block is
    a `ReviewBlock` value saying which of its elements could be found. The JSON file is
    replaced by the sequence of snapshots `save_to_json` wrote (the file holds the last
    one). What remains is the crawl control: the dedup index of `title + "_" + code`
    keys, skipping known courses, the checkpoint counter, the final save and the save
    on the failure path. */
module OtlCrawling {
  import opened Common
  import opened Text

  /** The placeholder the crawler writes for a professor name or semester it cannot read. */
  const Unknown: string := "알 수 없음"

  /** One review as `scrape_reviews` stores it (the JSON keys 강의명, 강의코드, 교수명,
      학기, 리뷰내용, 평점). */
  datatype ReviewRecord = ReviewRecord(
    title: string,
    code: string,
    professor: string,
    semester: string,
    content: string,
    ratings: map<string, string>)

  /** The title element of a review block: missing, present without its two spans, or
      present with the raw texts of both spans. */
  datatype TitleElement = NoTitle | TitleWithoutSpans | TitleSpans(professorText: string, semesterText: string)

  /** What the page offers for one review block: its title element, the raw text of its
      content element (`None` when that element is missing) and the raw texts of its score
      elements. */
  datatype ReviewBlock = ReviewBlock(title: TitleElement, content: Option<string>, ratingTexts: seq<string>)

  /** The outcome of clicking one course block. `NotOpened` stands for every failure
      that happens before the title and code are read (a stale element, a failed click,
      a detail panel that never appears, a missing title or code element); all of them
      leave the crawler's state as it was. */
  datatype Detail = NotOpened | Opened(titleText: string, codeText: string, blocks: seq<ReviewBlock>)

  /** One element of the enumerated course list. `handlerFails` says that the per-course
      error handler itself raised (taking the screenshot failed), which ends the loop
      and runs the failure path of `scrape_courses`. */
  datatype CourseUnit = CourseUnit(detail: Detail, handlerFails: bool)

  /** What loading the existing file gives: no file (the data already in memory is
      kept), a file that cannot be parsed (the data becomes empty), or the records it
      holds. */
  datatype LoadOutcome = NoFile | Unreadable | Loaded(records: seq<ReviewRecord>)

  /** What `find_elements` gives for the course blocks after the load: it raises, or it
      returns the enumerated units. */
  datatype CourseList = ListingFails | Listed(units: seq<CourseUnit>)

  // ---------------------------------------------------------------------------------
  // Rating classification

  const RecommendationKey: string := "recommendation"
  const GradeKey: string := "grade"
  const WorkloadKey: string := "workload"
  const TeachingKey: string := "teaching"

  /** The rating key a score text is filed under, by keyword priority
      추천, 성적, 널널, 강의; `None` when it mentions none of them. */
  function Classify(text: string): Option<string>
  {
    if Contains(text, "추천") then Some(RecommendationKey)
    else if Contains(text, "성적") then Some(GradeKey)
    else if Contains(text, "널널") then Some(WorkloadKey)
    else if Contains(text, "강의") then Some(TeachingKey)
    else None
  }

  /** The keyword priority: a text is filed under a key exactly when it contains that
      key's keyword and none of the keywords before it. */
  lemma ClassifyPriority(text: string)
    ensures Classify(text) == None <==> !Contains(text, "추천") && !Contains(text, "성적") && !Contains(text, "널널") && !Contains(text, "강의")
    ensures Classify(text) == Some(RecommendationKey) <==> Contains(text, "추천")
    ensures Classify(text) == Some(GradeKey) <==> !Contains(text, "추천") && Contains(text, "성적")
    ensures Classify(text) == Some(WorkloadKey) <==> !Contains(text, "추천") && !Contains(text, "성적") && Contains(text, "널널")
    ensures Classify(text) == Some(TeachingKey) <==> !Contains(text, "추천") && !Contains(text, "성적") && !Contains(text, "널널") && Contains(text, "강의")
  {
  }

  /** The longest suffix of `s` that holds no white space. */
  function TrailingRun(s: string): string
    decreases |s|
  {
    if s == [] || IsPyWhitespace(s[|s| - 1]) then [] else TrailingRun(s[..|s| - 1]) + [s[|s| - 1]]
  }

  lemma {:induction false} TrailingRunSpec(s: string)
    ensures var r := TrailingRun(s);
      |r| <= |s| && r == s[|s| - |r|..] && (forall i :: 0 <= i < |r| ==> !IsPyWhitespace(r[i]))
      && (|r| == |s| || IsPyWhitespace(s[|s| - |r| - 1]))
    decreases |s|
  {
    if s != [] && !IsPyWhitespace(s[|s| - 1]) {
      var init, c := s[..|s| - 1], s[|s| - 1];
      assert init + [c] == s;
      assert TrailingRun(s) == TrailingRun(init) + [c];
      TrailingRunSpec(init);
      TrailingRunStep(init, TrailingRun(init), c);
    }
  }

  /** One more non-white-space character extends the trailing run. */
  lemma TrailingRunStep(init: string, r0: string, c: char)
    requires |r0| <= |init| && r0 == init[|init| - |r0|..] && (forall i :: 0 <= i < |r0| ==> !IsPyWhitespace(r0[i]))
    requires |r0| == |init| || IsPyWhitespace(init[|init| - |r0| - 1])
    requires !IsPyWhitespace(c)
    ensures var s, r := init + [c], r0 + [c];
      |r| <= |s| && r == s[|s| - |r|..] && (forall i :: 0 <= i < |r| ==> !IsPyWhitespace(r[i]))
      && (|r| == |s| || IsPyWhitespace(s[|s| - |r| - 1]))
  {
    var s, r := init + [c], r0 + [c];
    assert s[|s| - |r|..] == init[|init| - |r0|..] + [c];
    if |r| < |s| {
      assert s[|s| - |r| - 1] == init[|init| - |r0| - 1];
    }
  }

  /** `text.split()[-1]`: the last white-space separated word of `text` (empty when
      there is none, where Python would raise; the crawler only asks for it on texts that
      contain a keyword). */
  function LastWord(text: string): string
  {
    TrailingRun(DropTrailing(text, PySpace))
  }

  /** `w` stands in `s` just before position `j`, is preceded by white space or the start
      of `s`, and only white space follows it. */
  predicate WordEndsAt(s: string, w: string, j: int)
  {
    |w| <= j <= |s| && s[j - |w|..j] == w && (j == |w| || IsPyWhitespace(s[j - |w| - 1]))
    && forall l :: j <= l < |s| ==> IsPyWhitespace(s[l])
  }

  /** `LastWord` is a white-space free word that is followed only by white space and is
      preceded by white space or nothing; it is empty exactly for blank texts. */
  lemma LastWordSpec(text: string)
    ensures forall i :: 0 <= i < |LastWord(text)| ==> !IsPyWhitespace(LastWord(text)[i])
    ensures LastWord(text) == [] <==> forall i :: 0 <= i < |text| ==> IsPyWhitespace(text[i])
    ensures LastWord(text) != [] ==> exists j :: 0 <= j <= |text| && WordEndsAt(text, LastWord(text), j)
  {
    var t := DropTrailing(text, PySpace);
    DropTrailingSpec(text, PySpace);
    var r := TrailingRun(t);
    TrailingRunSpec(t);
    assert text[|t| - |r|..|t|] == r;
    assert WordEndsAt(text, r, |t|);
    if t != [] {
      assert !IsPyWhitespace(t[|t| - 1]);
      assert r != [];
      assert !IsPyWhitespace(text[|t| - 1]);
    }
  }

  /** A classified score text: the key it is filed under and the value stored. */
  datatype Rating = Rating(key: string, value: string)

  /** One score element (lines 395-403): the text is stripped, classified, and its last
      word becomes the value. */
  function ReadRating(raw: string): Option<Rating>
  {
    var t := PyStrip(raw);
    match Classify(t)
    case None => None
    case Some(key) => Some(Rating(key, LastWord(t)))
  }

  /** The dictionary built from classified texts in order: a later entry for the same key
      overwrites an earlier one. */
  function RatingsFrom(entries: seq<Option<Rating>>): map<string, string>
    decreases |entries|
  {
    if entries == [] then map[]
    else
      var m := RatingsFrom(entries[..|entries| - 1]);
      match entries[|entries| - 1]
      case None => m
      case Some(r) => m[r.key := r.value]
  }

  function ReadRatings(texts: seq<string>): (r: seq<Option<Rating>>)
    ensures |r| == |texts| && forall i :: 0 <= i < |texts| ==> r[i] == ReadRating(texts[i])
  {
    seq(|texts|, i requires 0 <= i < |texts| => ReadRating(texts[i]))
  }

  /** The `ratings` dictionary of one review. */
  function RatingsOf(texts: seq<string>): map<string, string>
  {
    RatingsFrom(ReadRatings(texts))
  }

  /** A key is present exactly when some entry has it; an unclassified text adds nothing. */
  lemma {:induction false} RatingsFromKeys(entries: seq<Option<Rating>>)
    ensures forall key :: key in RatingsFrom(entries) <==>
      exists i :: 0 <= i < |entries| && entries[i].Some? && entries[i].value.key == key
    decreases |entries|
  {
    if entries != [] {
      var n := |entries| - 1;
      var init := entries[..n];
      RatingsFromKeys(init);
      forall key ensures key in RatingsFrom(entries) <==>
        exists i :: 0 <= i < |entries| && entries[i].Some? && entries[i].value.key == key
      {
        if key in RatingsFrom(entries) && !(entries[n].Some? && entries[n].value.key == key) {
          assert key in RatingsFrom(init);
          var i :| 0 <= i < n && init[i].Some? && init[i].value.key == key;
          assert entries[i] == init[i];
        }
        if exists i :: 0 <= i < |entries| && entries[i].Some? && entries[i].value.key == key {
          var i :| 0 <= i < |entries| && entries[i].Some? && entries[i].value.key == key;
          if i < n { assert init[i] == entries[i]; }
        }
      }
    }
  }

  /** The value of a key is the value of the LAST entry with that key. */
  lemma {:induction false} RatingsFromLastWins(entries: seq<Option<Rating>>, i: int)
    requires 0 <= i < |entries| && entries[i].Some?
    requires forall l :: i < l < |entries| && entries[l].Some? ==> entries[l].value.key != entries[i].value.key
    ensures entries[i].value.key in RatingsFrom(entries)
    ensures RatingsFrom(entries)[entries[i].value.key] == entries[i].value.value
    decreases |entries|
  {
    var n := |entries| - 1;
    if i < n {
      var init := entries[..n];
      assert init[i] == entries[i];
      forall l | i < l < n && init[l].Some? ensures init[l].value.key != init[i].value.key {
        assert init[l] == entries[l];
      }
      RatingsFromLastWins(init, i);
    }
  }

  /** The ratings of a review: a key is present exactly when one of its score texts is
      classified under it, and holds the last word of the last such text. */
  lemma RatingsOfSpec(texts: seq<string>)
    ensures forall key :: key in RatingsOf(texts) <==>
      exists i :: 0 <= i < |texts| && ReadRating(texts[i]).Some? && ReadRating(texts[i]).value.key == key
    ensures forall i ::
      (0 <= i < |texts| && ReadRating(texts[i]).Some? &&
       (forall l :: i < l < |texts| && ReadRating(texts[l]).Some? ==> ReadRating(texts[l]).value.key != ReadRating(texts[i]).value.key))
      ==> RatingsOf(texts)[ReadRating(texts[i]).value.key] == ReadRating(texts[i]).value.value
  {
    var es := ReadRatings(texts);
    RatingsFromKeys(es);
    forall i | 0 <= i < |texts| && ReadRating(texts[i]).Some? &&
      (forall l :: i < l < |texts| && ReadRating(texts[l]).Some? ==> ReadRating(texts[l]).value.key != ReadRating(texts[i]).value.key)
      ensures RatingsOf(texts)[ReadRating(texts[i]).value.key] == ReadRating(texts[i]).value.value
    {
      RatingsFromLastWins(es, i);
    }
  }

  /** Only the four rating keys ever appear. */
  lemma {:induction false} RatingsFromFourKeys(entries: seq<Option<Rating>>)
    requires forall i :: 0 <= i < |entries| && entries[i].Some? ==>
      entries[i].value.key in {RecommendationKey, GradeKey, WorkloadKey, TeachingKey}
    ensures forall key :: key in RatingsFrom(entries) ==> key in {RecommendationKey, GradeKey, WorkloadKey, TeachingKey}
    decreases |entries|
  {
    if entries != [] {
      var init := entries[..|entries| - 1];
      assert forall i :: 0 <= i < |init| ==> init[i] == entries[i];
      RatingsFromFourKeys(init);
    }
  }

  lemma RatingKeys(texts: seq<string>)
    ensures forall key :: key in RatingsOf(texts) ==> key in {RecommendationKey, GradeKey, WorkloadKey, TeachingKey}
  {
    RatingsFromFourKeys(ReadRatings(texts));
  }

  lemma RecommendationExample()
    ensures ReadRating("추천 4") == Some(Rating(RecommendationKey, "4"))
  {
    assert PyStrip("추천 4") == "추천 4";
    assert OccursAt("추천 4", "추천", 0);
    assert LastWord("추천 4") == "4";
  }

  lemma GradeExample()
    ensures ReadRating(" 성적 B+ ") == Some(Rating(GradeKey, "B+"))
  {
    var t := "성적 B+";
    assert PyStrip(" 성적 B+ ") == t;
    assert OccursAt(t, "성적", 0);
    MissingChar(t, "추천", '추');
    assert TrailingRun("성적 ") == [];
    assert TrailingRun("성적 B") == "B" by { assert "성적 B"[..3] == "성적 "; }
    assert TrailingRun(t) == "B+" by { assert t[..4] == "성적 B"; }
    assert LastWord(t) == "B+";
  }

  /** Priority: a text mentioning both 강의 and 추천 is filed under recommendation. */
  lemma PriorityExample()
    ensures ReadRating("강의 추천 5") == Some(Rating(RecommendationKey, "5"))
  {
    var t := "강의 추천 5";
    assert PyStrip(t) == t;
    assert OccursAt(t, "추천", 3);
    assert LastWord(t) == "5";
  }

  lemma NoKeywordExample()
    ensures ReadRating("평점 없음") == None
  {
    var t := "평점 없음";
    assert PyStrip(t) == t;
    MissingChar(t, "추천", '추');
    MissingChar(t, "성적", '성');
    MissingChar(t, "널널", '널');
    MissingChar(t, "강의", '강');
  }

  /** The ratings loop of lines 394-403, run over the raw score texts. */
  method ClassifyRatings(texts: seq<string>) returns (ratings: map<string, string>)
    ensures ratings == RatingsOf(texts)
  {
    ratings := map[];
    var i := 0;
    ghost var es := ReadRatings(texts);
    while i < |texts|
      invariant 0 <= i <= |texts|
      invariant ratings == RatingsFrom(es[..i])
    {
      assert es[..i + 1][..i] == es[..i];
      var t := PyStrip(texts[i]);
      match Classify(t) {
        case None =>
        case Some(key) => ratings := ratings[key := LastWord(t)];
      }
      i := i + 1;
    }
    assert es[..i] == es;
  }

  // ---------------------------------------------------------------------------------
  // Review extraction

  /** The record a review block yields, or `None` when it is skipped (no title element
      or no content element). Texts are stripped; a title without its spans gives the
      placeholder for both professor and semester. */
  function ExtractReview(title: string, code: string, b: ReviewBlock): Option<ReviewRecord>
  {
    match b.title
    case NoTitle => None
    case TitleWithoutSpans => ReviewFrom(title, code, Unknown, Unknown, b)
    case TitleSpans(professorText, semesterText) =>
      ReviewFrom(title, code, PyStrip(professorText), PyStrip(semesterText), b)
  }

  /** A block yields a record exactly when it has both a title and a content element; the
      record carries the course's title and code, the stripped texts and the block's
      ratings, and the placeholder for professor and semester when the spans are missing. */
  lemma ExtractReviewSpec(title: string, code: string, b: ReviewBlock)
    ensures var r := ExtractReview(title, code, b);
      (r.None? <==> b.title.NoTitle? || b.content.None?)
      && (r.Some? ==> r.value.title == title && r.value.code == code && r.value.ratings == RatingsOf(b.ratingTexts)
                      && r.value.content == PyStrip(b.content.value))
      && (r.Some? && b.title.TitleWithoutSpans? ==> r.value.professor == Unknown && r.value.semester == Unknown)
      && (r.Some? && b.title.TitleSpans? ==>
            r.value.professor == PyStrip(b.title.professorText) && r.value.semester == PyStrip(b.title.semesterText))
  {
  }

  function ReviewFrom(title: string, code: string, professor: string, semester: string, b: ReviewBlock): Option<ReviewRecord>
  {
    match b.content
    case None => None
    case Some(text) => Some(ReviewRecord(title, code, professor, semester, PyStrip(text), RatingsOf(b.ratingTexts)))
  }

  /** The records `scrape_reviews` appends for one course, in block order. */
  function ExtractReviews(title: string, code: string, blocks: seq<ReviewBlock>): (r: seq<ReviewRecord>)
    ensures |r| <= |blocks|
    ensures forall i :: 0 <= i < |r| ==> r[i].title == title && r[i].code == code
    decreases |blocks|
  {
    if blocks == [] then []
    else
      var init := ExtractReviews(title, code, blocks[..|blocks| - 1]);
      match ExtractReview(title, code, blocks[|blocks| - 1])
      case None => init
      case Some(rec) => init + [rec]
  }

  /** Blocks are handled independently: the records of a concatenation are the records of
      its parts, so a malformed block removes exactly its own record and nothing else. */
  lemma {:induction false} ExtractReviewsAppend(title: string, code: string, a: seq<ReviewBlock>, b: seq<ReviewBlock>)
    ensures ExtractReviews(title, code, a + b) == ExtractReviews(title, code, a) + ExtractReviews(title, code, b)
    decreases |b|
  {
    if b == [] {
      assert a + b == a;
    } else {
      var n := |b| - 1;
      assert (a + b)[..|a + b| - 1] == a + b[..n];
      assert (a + b)[|a + b| - 1] == b[n];
      ExtractReviewsAppend(title, code, a, b[..n]);
    }
  }

  lemma MalformedBlockIsIsolated(title: string, code: string, a: seq<ReviewBlock>, bad: ReviewBlock, b: seq<ReviewBlock>)
    requires bad.title.NoTitle? || bad.content.None?
    ensures ExtractReviews(title, code, a + [bad] + b) == ExtractReviews(title, code, a) + ExtractReviews(title, code, b)
  {
    ExtractReviewsAppend(title, code, a + [bad], b);
    ExtractReviewsAppend(title, code, a, [bad]);
    assert [bad][..0] == [];
  }

  /** The index key of a course: its title and code joined by "_" into one string. */
  function CourseKey(title: string, code: string): string
  {
    title + "_" + code
  }

  function RecordKey(r: ReviewRecord): string
  {
    CourseKey(r.title, r.code)
  }

  /** The key is one string, not a pair: titles containing "_" can collide. */
  lemma CourseKeyCollides()
    ensures CourseKey("A_B", "C") == CourseKey("A", "B_C")
    ensures ("A_B", "C") != ("A", "B_C")
  {
  }

  /** The set built by lines 221-224. */
  function KeysOf(records: seq<ReviewRecord>): set<string>
    decreases |records|
  {
    if records == [] then {}
    else KeysOf(records[..|records| - 1]) + {RecordKey(records[|records| - 1])}
  }

  /** The index holds exactly the keys of the given records. */
  lemma {:induction false} KeysOfSpec(records: seq<ReviewRecord>)
    ensures forall i :: 0 <= i < |records| ==> RecordKey(records[i]) in KeysOf(records)
    ensures forall key :: key in KeysOf(records) ==> exists i :: 0 <= i < |records| && RecordKey(records[i]) == key
    decreases |records|
  {
    if records != [] {
      var n := |records| - 1;
      KeysOfSpec(records[..n]);
      assert forall i :: 0 <= i < n ==> records[..n][i] == records[i];
    }
  }

  lemma KeysOfPrefix(a: seq<ReviewRecord>, b: seq<ReviewRecord>)
    requires IsPrefix(a, b)
    ensures KeysOf(a) <= KeysOf(b)
  {
    KeysOfSpec(a);
    KeysOfSpec(b);
    forall k | k in KeysOf(a) ensures k in KeysOf(b) {
      var i :| 0 <= i < |a| && RecordKey(a[i]) == k;
      assert b[i] == a[i];
    }
  }

  // ---------------------------------------------------------------------------------
  // The crawl as a function of the unit outcomes

  /** What an opened course contributes: its stripped title and code and the records its
      review blocks yield. */
  datatype CourseRead = CourseRead(title: string, code: string, records: seq<ReviewRecord>)

  /** One unit as the loop sees it: the course it opened, if any, and whether its error
      handler failed. */
  datatype Step = Step(course: Option<CourseRead>, handlerFails: bool)

  function ReadDetail(d: Detail): Option<CourseRead>
  {
    match d
    case NotOpened => None
    case Opened(titleText, codeText, blocks) =>
      var title := PyStrip(titleText);
      var code := PyStrip(codeText);
      Some(CourseRead(title, code, ExtractReviews(title, code, blocks)))
  }

  function StepsOf(units: seq<CourseUnit>): seq<Step>
  {
    seq(|units|, i requires 0 <= i < |units| => Step(ReadDetail(units[i].detail), units[i].handlerFails))
  }

  /** Every record of a course carries that course's key. */
  predicate KeyedRecords(c: CourseRead)
  {
    forall i :: 0 <= i < |c.records| ==> RecordKey(c.records[i]) == CourseKey(c.title, c.code)
  }

  predicate AllKeyed(steps: seq<Step>)
  {
    forall i :: 0 <= i < |steps| && steps[i].course.Some? ==> KeyedRecords(steps[i].course.value)
  }

  lemma StepsAreKeyed(units: seq<CourseUnit>)
    ensures AllKeyed(StepsOf(units))
  {
  }

  /** The state of `scrape_courses` between two units: the records in memory, the set of
      known keys, the since-last-save counter and the snapshots saved so far. */
  datatype Progress = Progress(data: seq<ReviewRecord>, index: set<string>, sinceSave: int, saves: seq<seq<ReviewRecord>>)

  /** Where the walk over the units stands, and whether the failure path was taken. */
  datatype Outcome = Outcome(progress: Progress, aborted: bool)

  /** Lines 278-297 for one unit. */
  function VisitUnit(p: Progress, c: Option<CourseRead>, saveInterval: int): Progress
  {
    match c
    case None => p
    case Some(course) =>
      var key := CourseKey(course.title, course.code);
      if key in p.index then p
      else
        var data := p.data + course.records;
        var count := p.sinceSave + 1;
        if count >= saveInterval then Progress(data, p.index + {key}, 0, p.saves + [data])
        else Progress(data, p.index + {key}, count, p.saves)
  }

  /** One unit: a course that was not opened or whose key is known changes nothing; a new
      course appends its records after the existing ones, adds its key (even when it has
      no record) and bumps the counter, and the checkpoint fires exactly when the counter
      reaches the save interval, saving the records and resetting the counter. */
  lemma VisitUnitSpec(p: Progress, c: Option<CourseRead>, k: int)
    ensures c.None? ==> VisitUnit(p, c, k) == p
    ensures c.Some? && CourseKey(c.value.title, c.value.code) in p.index ==> VisitUnit(p, c, k) == p
    ensures c.Some? && CourseKey(c.value.title, c.value.code) !in p.index ==>
      var q := VisitUnit(p, c, k);
      IsPrefix(p.data, q.data)
      && q.data[|p.data|..] == c.value.records
      && q.index == p.index + {CourseKey(c.value.title, c.value.code)}
      && (if p.sinceSave + 1 >= k then q.sinceSave == 0 && q.saves == p.saves + [q.data]
          else q.sinceSave == p.sinceSave + 1 && q.saves == p.saves)
  {
  }

  /** The snapshots a unit saves do not depend on the ones saved before it. */
  lemma VisitUnitSaves(p: Progress, c: Option<CourseRead>, k: int)
    ensures var q := VisitUnit(Progress(p.data, p.index, p.sinceSave, []), c, k);
      VisitUnit(p, c, k) == Progress(q.data, q.index, q.sinceSave, p.saves + q.saves)
  {
  }

  /** The loop of lines 242-338 over the units, stopping after a unit whose error
      handler failed. */
  function Walk(p: Progress, steps: seq<Step>, saveInterval: int): Outcome
    decreases |steps|
  {
    if steps == [] then Outcome(p, false)
    else
      var o := Walk(p, steps[..|steps| - 1], saveInterval);
      if o.aborted then o
      else
        var s := steps[|steps| - 1];
        Outcome(VisitUnit(o.progress, s.course, saveInterval), s.handlerFails)
  }

  /** The snapshots after the loop: the final save of lines 341-342 when the counter is
      positive, or the save of lines 354-355 when the failure path runs with data. */
  function FinalSaves(o: Outcome): seq<seq<ReviewRecord>>
  {
    var p := o.progress;
    if o.aborted then (if p.data != [] then p.saves + [p.data] else p.saves)
    else if p.sinceSave > 0 then p.saves + [p.data]
    else p.saves
  }

  /** The records in memory after the load of lines 211-218. */
  function LoadedData(current: seq<ReviewRecord>, load: LoadOutcome): seq<ReviewRecord>
  {
    match load
    case NoFile => current
    case Unreadable => []
    case Loaded(records) => records
  }

  function StartOf(data0: seq<ReviewRecord>): Progress
  {
    Progress(data0, KeysOf(data0), 0, [])
  }

  /** What one call of `scrape_courses` leaves: the records in memory and the snapshots
      it saved, in order. */
  datatype RunResult = RunResult(data: seq<ReviewRecord>, saves: seq<seq<ReviewRecord>>)

  function Crawl(current: seq<ReviewRecord>, load: LoadOutcome, units: seq<CourseUnit>, saveInterval: int): RunResult
  {
    var data0 := LoadedData(current, load);
    if units == [] then RunResult(data0, [])
    else
      var o := Walk(StartOf(data0), StepsOf(units), saveInterval);
      RunResult(o.progress.data, FinalSaves(o))
  }

  /** One call of `scrape_courses`: when listing the course blocks raises, the failure path
      of lines 345-356 runs on the loaded records before any unit is visited. */
  function ScrapeRun(current: seq<ReviewRecord>, load: LoadOutcome, listing: CourseList, saveInterval: int): RunResult
  {
    match listing
    case ListingFails =>
      var data0 := LoadedData(current, load);
      RunResult(data0, if data0 != [] then [data0] else [])
    case Listed(units) => Crawl(current, load, units, saveInterval)
  }

  // ---------------------------------------------------------------------------------
  // Properties of the crawl

  /** Once the failure path is taken, later units are never visited. */
  lemma {:induction false} WalkStopsAtAbort(p: Progress, steps: seq<Step>, i: nat, k: int)
    requires i <= |steps|
    requires Walk(p, steps[..i], k).aborted
    ensures Walk(p, steps, k) == Walk(p, steps[..i], k)
    decreases |steps| - i
  {
    if i < |steps| {
      assert steps[..i + 1][..i] == steps[..i];
      WalkStopsAtAbort(p, steps, i + 1, k);
    } else {
      assert steps[..i] == steps;
    }
  }

  /** One more unit after a prefix that did not abort is one more visit. */
  lemma WalkNext(p: Progress, steps: seq<Step>, i: nat, k: int)
    requires i < |steps| && !Walk(p, steps[..i], k).aborted
    ensures Walk(p, steps[..i + 1], k) == Outcome(VisitUnit(Walk(p, steps[..i], k).progress, steps[i].course, k), steps[i].handlerFails)
  {
    assert steps[..i + 1][..i] == steps[..i] && steps[..i + 1][i] == steps[i];
  }

  /** Walking `a + b` is walking `a` and then, unless that aborted, walking `b`. */
  lemma {:induction false} WalkAppend(p: Progress, a: seq<Step>, b: seq<Step>, k: int)
    ensures Walk(p, a + b, k) == (if Walk(p, a, k).aborted then Walk(p, a, k) else Walk(Walk(p, a, k).progress, b, k))
    decreases |b|
  {
    if b == [] {
      assert a + b == a;
    } else {
      var n := |b| - 1;
      assert (a + b)[..|a + b| - 1] == a + b[..n];
      assert (a + b)[|a + b| - 1] == b[n];
      WalkAppend(p, a, b[..n], k);
    }
  }

  /** Records and snapshots are only ever appended, and keys only ever added. */
  lemma {:induction false} WalkGrows(p: Progress, steps: seq<Step>, k: int)
    ensures IsPrefix(p.data, Walk(p, steps, k).progress.data)
    ensures IsPrefix(p.saves, Walk(p, steps, k).progress.saves)
    ensures p.index <= Walk(p, steps, k).progress.index
    decreases |steps|
  {
    if steps != [] {
      WalkGrows(p, steps[..|steps| - 1], k);
      var q := Walk(p, steps[..|steps| - 1], k).progress;
      var r := Walk(p, steps, k).progress;
      assert r.data[..|p.data|] == r.data[..|q.data|][..|p.data|];
      assert r.saves[..|p.saves|] == r.saves[..|q.saves|][..|p.saves|];
    }
  }

  /** The counter invariant of lines 288 and 294-297: between units the counter is 0 or
      below the save interval. */
  predicate CounterInRange(p: Progress, k: int)
  {
    p.sinceSave >= 0 && (p.sinceSave == 0 || p.sinceSave < k)
  }

  lemma {:induction false} WalkCounterInRange(p: Progress, steps: seq<Step>, k: int)
    requires CounterInRange(p, k)
    ensures CounterInRange(Walk(p, steps, k).progress, k)
    decreases |steps|
  {
    if steps != [] {
      WalkCounterInRange(p, steps[..|steps| - 1], k);
    }
  }

  /** Every snapshot is a prefix of every later snapshot and of the records in memory. */
  predicate SnapshotsChained(saves: seq<seq<ReviewRecord>>, data: seq<ReviewRecord>)
  {
    (forall i, j :: 0 <= i < j < |saves| ==> IsPrefix(saves[i], saves[j]))
    && (forall i :: 0 <= i < |saves| ==> IsPrefix(saves[i], data))
  }

  lemma {:induction false} WalkKeepsSnapshotsChained(p: Progress, steps: seq<Step>, k: int)
    requires SnapshotsChained(p.saves, p.data)
    ensures SnapshotsChained(Walk(p, steps, k).progress.saves, Walk(p, steps, k).progress.data)
    decreases |steps|
  {
    if steps != [] {
      WalkKeepsSnapshotsChained(p, steps[..|steps| - 1], k);
      var o := Walk(p, steps[..|steps| - 1], k);
      if !o.aborted {
        var q := o.progress;
        var r := VisitUnit(q, steps[|steps| - 1].course, k);
        if r != q {
          forall i | 0 <= i < |q.saves| ensures IsPrefix(q.saves[i], r.data) {
            assert r.data[..|q.saves[i]|] == r.data[..|q.data|][..|q.saves[i]|];
          }
        }
      }
    }
  }

  /** The snapshots a whole run saves are chained, and the data only grows. */
  lemma CrawlSnapshotsChained(current: seq<ReviewRecord>, load: LoadOutcome, units: seq<CourseUnit>, k: int)
    ensures IsPrefix(LoadedData(current, load), Crawl(current, load, units, k).data)
    ensures SnapshotsChained(Crawl(current, load, units, k).saves, Crawl(current, load, units, k).data)
  {
    var data0 := LoadedData(current, load);
    if units != [] {
      WalkKeepsSnapshotsChained(StartOf(data0), StepsOf(units), k);
      WalkGrows(StartOf(data0), StepsOf(units), k);
    }
  }

  /** The keys of the courses the steps open. */
  function OpenedKeys(steps: seq<Step>): set<string>
    decreases |steps|
  {
    if steps == [] then {}
    else
      var c := steps[|steps| - 1].course;
      OpenedKeys(steps[..|steps| - 1]) + (if c.Some? then {CourseKey(c.value.title, c.value.code)} else {})
  }

  /** A new course's records carry its key, so after visiting it every record in memory
      still has its key in the index. */
  lemma VisitKeepsKeysIndexed(q: Progress, c: Option<CourseRead>, k: int)
    requires c.Some? ==> KeyedRecords(c.value)
    requires KeysOf(q.data) <= q.index
    ensures KeysOf(VisitUnit(q, c, k).data) <= VisitUnit(q, c, k).index
  {
    var key := if c.Some? then CourseKey(c.value.title, c.value.code) else "";
    if c.Some? && key !in q.index {
      var records := c.value.records;
      assert VisitUnit(q, c, k).data == q.data + records && VisitUnit(q, c, k).index == q.index + {key};
      KeysOfAppend(q.data, records);
      assert KeysOf(records) <= {key} by {
        KeysOfSpec(records);
        forall x | x in KeysOf(records) ensures x == key {
          var i :| 0 <= i < |records| && RecordKey(records[i]) == x;
        }
      }
    }
  }

  /** The keys of two record lists one after the other are the keys of both. */
  lemma {:induction false} KeysOfAppend(a: seq<ReviewRecord>, b: seq<ReviewRecord>)
    ensures KeysOf(a + b) == KeysOf(a) + KeysOf(b)
    decreases |b|
  {
    if b == [] {
      assert a + b == a;
    } else {
      var n := |b| - 1;
      assert (a + b)[..|a + b| - 1] == a + b[..n];
      assert (a + b)[|a + b| - 1] == b[n];
      KeysOfAppend(a, b[..n]);
    }
  }

  /** Every record in memory has its key in the index. */
  lemma {:induction false} WalkKeysIndexed(p: Progress, steps: seq<Step>, k: int)
    requires AllKeyed(steps)
    requires KeysOf(p.data) <= p.index
    ensures KeysOf(Walk(p, steps, k).progress.data) <= Walk(p, steps, k).progress.index
    decreases |steps|
  {
    if steps != [] {
      var n := |steps| - 1;
      assert AllKeyed(steps[..n]) by {
        forall i | 0 <= i < n ensures steps[..n][i] == steps[i] { }
      }
      WalkKeysIndexed(p, steps[..n], k);
      var o := Walk(p, steps[..n], k);
      if !o.aborted {
        VisitKeepsKeysIndexed(o.progress, steps[n].course, k);
      }
    }
  }

  /** Without a failure the index ends as the start index plus the key of every opened
      course; a course with no review keeps its key in the index without any record. */
  lemma {:induction false} WalkIndex(p: Progress, steps: seq<Step>, k: int)
    ensures !Walk(p, steps, k).aborted ==> Walk(p, steps, k).progress.index == p.index + OpenedKeys(steps)
    decreases |steps|
  {
    if steps != [] {
      WalkIndex(p, steps[..|steps| - 1], k);
    }
  }

  /** Idempotent resume, one walk: when every opened course is already indexed, nothing is
      appended, the counter stays and nothing is saved. */
  lemma {:induction false} WalkAllKnown(p: Progress, steps: seq<Step>, k: int)
    requires OpenedKeys(steps) <= p.index
    ensures Walk(p, steps, k).progress == p
    decreases |steps|
  {
    if steps != [] {
      WalkAllKnown(p, steps[..|steps| - 1], k);
    }
  }

  /** Idempotent resume, whole run: if the loaded records already cover every opened
      course, the run appends nothing; it saves nothing unless the failure path runs,
      which rewrites the loaded records unchanged. */
  lemma CrawlAllKnown(current: seq<ReviewRecord>, load: LoadOutcome, units: seq<CourseUnit>, k: int)
    requires OpenedKeys(StepsOf(units)) <= KeysOf(LoadedData(current, load))
    ensures Crawl(current, load, units, k).data == LoadedData(current, load)
    ensures Crawl(current, load, units, k).saves == [] || Crawl(current, load, units, k).saves == [LoadedData(current, load)]
    ensures units != [] && !Walk(StartOf(LoadedData(current, load)), StepsOf(units), k).aborted ==>
      Crawl(current, load, units, k).saves == []
  {
    if units != [] {
      WalkAllKnown(StartOf(LoadedData(current, load)), StepsOf(units), k);
    }
  }

  /** The file and the memory agree whenever the counter is 0: the last snapshot is the
      data in memory, or, with no snapshot yet, the data is still what was loaded. */
  predicate Synced(p: Progress, data0: seq<ReviewRecord>)
  {
    p.sinceSave >= 0 && (p.sinceSave == 0 ==> (if p.saves == [] then p.data == data0 else p.saves[|p.saves| - 1] == p.data))
  }

  lemma {:induction false} WalkSynced(p: Progress, steps: seq<Step>, k: int, data0: seq<ReviewRecord>)
    requires Synced(p, data0)
    ensures Synced(Walk(p, steps, k).progress, data0)
    decreases |steps|
  {
    if steps != [] {
      WalkSynced(p, steps[..|steps| - 1], k, data0);
    }
  }

  /** Whatever happens in the loop, the store ends holding the final records: the last
      snapshot of the run is the data in memory, or the run saved nothing and the data
      is what was loaded. */
  lemma CrawlLeavesStoreCurrent(current: seq<ReviewRecord>, load: LoadOutcome, units: seq<CourseUnit>, k: int)
    ensures var r := Crawl(current, load, units, k);
      if r.saves == [] then r.data == LoadedData(current, load) else r.saves[|r.saves| - 1] == r.data
  {
    var data0 := LoadedData(current, load);
    if units != [] {
      var steps := StepsOf(units);
      WalkSynced(StartOf(data0), steps, k, data0);
      WalkCounterInRange(StartOf(data0), steps, k);
      WalkKeepsSnapshotsChained(StartOf(data0), steps, k);
      WalkGrows(StartOf(data0), steps, k);
      var p := Walk(StartOf(data0), steps, k).progress;
      if p.saves != [] {
        assert IsPrefix(p.saves[|p.saves| - 1], p.data);
      }
    }
  }

  /** Whichever way the call ends, the loaded records stay in front, the snapshots are
      chained and the last one is the data in memory (or nothing was saved and the data is
      what was loaded); a failed listing visits no unit and saves the loaded records at most
      once, and only when there are any. */
  lemma ScrapeRunSpec(current: seq<ReviewRecord>, load: LoadOutcome, listing: CourseList, k: int)
    ensures var r := ScrapeRun(current, load, listing, k);
      IsPrefix(LoadedData(current, load), r.data) && SnapshotsChained(r.saves, r.data)
      && (if r.saves == [] then r.data == LoadedData(current, load) else r.saves[|r.saves| - 1] == r.data)
    ensures listing.ListingFails? ==>
      var r := ScrapeRun(current, load, listing, k);
      r.data == LoadedData(current, load) && |r.saves| <= 1 && (r.saves != [] <==> LoadedData(current, load) != [])
  {
    var data0 := LoadedData(current, load);
    match listing
    case ListingFails =>
      assert IsPrefix(data0, data0);
    case Listed(units) =>
      CrawlSnapshotsChained(current, load, units, k);
      CrawlLeavesStoreCurrent(current, load, units, k);
  }

  /** Run-to-run idempotence: re-running the same course list on the records a complete
      run produced appends nothing. Courses whose first visit found no review are visited
      again (their key is not in the records), but they add no record again. */
  lemma SecondCrawlAddsNothing(current: seq<ReviewRecord>, load: LoadOutcome, units: seq<CourseUnit>, k: int, other: seq<ReviewRecord>)
    requires units != [] && !Walk(StartOf(LoadedData(current, load)), StepsOf(units), k).aborted
    ensures var first := Crawl(current, load, units, k);
      Crawl(other, Loaded(first.data), units, k).data == first.data
  {
    var data0 := LoadedData(current, load);
    var steps := StepsOf(units);
    WalkGrows(StartOf(data0), steps, k);
    KeysOfPrefix(data0, Walk(StartOf(data0), steps, k).progress.data);
    StepsAreKeyed(units);
    SecondWalk(data0, steps, k, |steps|);
    assert steps[..|steps|] == steps;
  }

  /** The induction behind `SecondCrawlAddsNothing`, over the first `i` steps. */
  lemma {:induction false} SecondWalk(data0: seq<ReviewRecord>, steps: seq<Step>, k: int, i: nat)
    requires i <= |steps| && AllKeyed(steps)
    requires !Walk(StartOf(data0), steps, k).aborted
    requires KeysOf(data0) <= KeysOf(Walk(StartOf(data0), steps, k).progress.data)
    ensures var data1 := Walk(StartOf(data0), steps, k).progress.data;
      var w := Walk(StartOf(data1), steps[..i], k);
      !w.aborted && w.progress.data == data1 && w.progress.index == KeysOf(data1) + OpenedKeys(steps[..i])
    decreases i
  {
    if i > 0 {
      var n := i - 1;
      var data1 := Walk(StartOf(data0), steps, k).progress.data;
      assert steps[..i][..n] == steps[..n];
      assert steps[..i][n] == steps[n];
      SecondWalk(data0, steps, k, n);
      var w := Walk(StartOf(data1), steps[..n], k);
      FirstWalkAt(data0, steps, k, n);
      var c := steps[n].course;
      if c.Some? {
        var key := CourseKey(c.value.title, c.value.code);
        if key !in w.progress.index && c.value.records != [] {
          FirstWalkKeepsNewRecords(data0, steps, k, n);
          assert false;
        }
      }
    }
  }

  /** In a complete first run, step `n` is reached without a failure, its handler does
      not fail, and the index before it is the start keys plus the keys opened before. */
  lemma FirstWalkAt(data0: seq<ReviewRecord>, steps: seq<Step>, k: int, n: nat)
    requires n < |steps| && AllKeyed(steps)
    requires !Walk(StartOf(data0), steps, k).aborted
    ensures !Walk(StartOf(data0), steps[..n], k).aborted && !steps[n].handlerFails
    ensures Walk(StartOf(data0), steps[..n], k).progress.index == KeysOf(data0) + OpenedKeys(steps[..n])
  {
    var p0 := StartOf(data0);
    assert steps[..n + 1][..n] == steps[..n];
    if Walk(p0, steps[..n + 1], k).aborted {
      WalkStopsAtAbort(p0, steps, n + 1, k);
    }
    WalkIndex(p0, steps[..n], k);
  }

  /** In a complete first run, a course new at step `n` leaves its records in the final
      data, so its key is among the final data's keys when it has any record. */
  lemma FirstWalkKeepsNewRecords(data0: seq<ReviewRecord>, steps: seq<Step>, k: int, n: nat)
    requires n < |steps| && AllKeyed(steps)
    requires !Walk(StartOf(data0), steps, k).aborted
    requires steps[n].course.Some? && steps[n].course.value.records != []
    requires CourseKey(steps[n].course.value.title, steps[n].course.value.code) !in KeysOf(data0) + OpenedKeys(steps[..n])
    ensures CourseKey(steps[n].course.value.title, steps[n].course.value.code) in KeysOf(Walk(StartOf(data0), steps, k).progress.data)
  {
    var p0 := StartOf(data0);
    FirstWalkAt(data0, steps, k, n);
    var before := Walk(p0, steps[..n], k);
    var c := steps[n].course.value;
    var after := Walk(p0, steps[..n + 1], k);
    assert steps[..n + 1][..n] == steps[..n];
    assert after.progress == VisitUnit(before.progress, steps[n].course, k);
    assert after.progress.data[|before.progress.data|] == c.records[0];
    WalkAppend(p0, steps[..n + 1], steps[n + 1..], k);
    assert steps[..n + 1] + steps[n + 1..] == steps;
    WalkGrows(after.progress, steps[n + 1..], k);
    var data1 := Walk(p0, steps, k).progress.data;
    assert data1[|before.progress.data|] == c.records[0];
    assert RecordKey(c.records[0]) == CourseKey(c.title, c.code);
    KeysOfSpec(data1);
  }

  // ---------------------------------------------------------------------------------
  // Filters

  /** The course-type filter table of lines 88-99. */
  const TypeFilterIds: map<string, string> := map[
    "기필" := "type-BR", "기선" := "type-BE", "전필" := "type-MR", "전선" := "type-ME",
    "공통" := "type-GR", "석박" := "type-EG", "교필" := "type-MGC", "인선" := "type-HSE",
    "자선" := "type-OE", "기타" := "type-ETC"]

  /** The department filter table of lines 135-157. */
  const DepartmentFilterIds: map<string, string> := map[
    "인문" := "department-HSS", "건환" := "department-CE", "기경" := "department-BTM",
    "기계" := "department-ME", "뇌인지" := "department-BCS", "물리" := "department-PH",
    "바공" := "department-BiS", "반시공" := "department-SS", "산공" := "department-IE",
    "산디" := "department-ID", "생명" := "department-BS", "생화공" := "department-CBE",
    "수리" := "department-MAS", "신소재" := "department-MS", "원양" := "department-NQE",
    "융인" := "department-TS", "전산" := "department-CS", "전자" := "department-EE",
    "항공" := "department-AE", "화학" := "department-CH", "기타" := "department-ETC"]

  /** The checkbox ids `select_filters` makes sure are ticked, in request order; names the
      table does not know are passed over. */
  function FilterIds(names: seq<string>, table: map<string, string>): (r: seq<string>)
    ensures |r| <= |names|
    ensures forall i :: 0 <= i < |r| ==> r[i] in table.Values
    ensures (forall i :: 0 <= i < |names| ==> names[i] !in table) ==> r == []
    ensures (forall i :: 0 <= i < |names| ==> names[i] in table) ==> |r| == |names|
    decreases |names|
  {
    if names == [] then []
    else (if names[0] in table then [table[names[0]]] else []) + FilterIds(names[1..], table)
  }

  /** The filters `main` asks for: the type 인선 selects one checkbox, and the department
      전체 is not in the table, so no department checkbox is ticked. */
  lemma MainFilters()
    ensures FilterIds(["인선"], TypeFilterIds) == ["type-HSE"]
    ensures FilterIds(["전체"], DepartmentFilterIds) == []
  {
  }

  // ---------------------------------------------------------------------------------
  // The scraper object

  class OtlScraper {
    /** `self.review_data`. */
    var reviewData: seq<ReviewRecord>
    /** Every snapshot `save_to_json` wrote, oldest first; the file holds the last one. */
    var snapshots: seq<seq<ReviewRecord>>

    constructor ()
      ensures reviewData == [] && snapshots == []
    {
      reviewData := [];
      snapshots := [];
    }

    /** `save_to_json`: the file now holds the records in memory. */
    method SaveToJson()
      modifies this
      ensures reviewData == old(reviewData)
      ensures snapshots == old(snapshots) + [reviewData]
    {
      snapshots := snapshots + [reviewData];
    }

    /** Reading one review block (lines 371-413). */
    static method ReadReview(title: string, code: string, b: ReviewBlock) returns (r: Option<ReviewRecord>)
      ensures r == ExtractReview(title, code, b)
    {
      if b.title.NoTitle? || b.content.None? {
        return None;
      }
      var professor, semester;
      if b.title.TitleSpans? {
        professor := PyStrip(b.title.professorText);
        semester := PyStrip(b.title.semesterText);
      } else {
        professor := Unknown;
        semester := Unknown;
      }
      var content := PyStrip(b.content.value);
      var ratings := ClassifyRatings(b.ratingTexts);
      r := Some(ReviewRecord(title, code, professor, semester, content, ratings));
    }

    /** `scrape_reviews`: append the record of every readable block, in order. */
    method ScrapeReviews(title: string, code: string, blocks: seq<ReviewBlock>)
      modifies this
      ensures reviewData == old(reviewData) + ExtractReviews(title, code, blocks)
      ensures snapshots == old(snapshots)
    {
      var i := 0;
      while i < |blocks|
        invariant 0 <= i <= |blocks|
        invariant reviewData == old(reviewData) + ExtractReviews(title, code, blocks[..i])
        invariant snapshots == old(snapshots)
      {
        assert blocks[..i + 1][..i] == blocks[..i];
        var r := ReadReview(title, code, blocks[i]);
        if r.Some? {
          reviewData := reviewData + [r.value];
        }
        i := i + 1;
      }
      assert blocks[..i] == blocks;
    }

    /** Lines 221-224: the set of keys of the records in memory. */
    static method BuildIndex(records: seq<ReviewRecord>) returns (index: set<string>)
      ensures index == KeysOf(records)
    {
      index := {};
      var i := 0;
      while i < |records|
        invariant 0 <= i <= |records|
        invariant index == KeysOf(records[..i])
      {
        assert records[..i + 1][..i] == records[..i];
        index := index + {RecordKey(records[i])};
        i := i + 1;
      }
      assert records[..i] == records;
    }

    /** Lines 263-297 for one course block: read its title and code, skip it when its key
        is known, otherwise scrape its reviews, count it, index it and checkpoint. */
    method VisitCourse(d: Detail, crawled: set<string>, sinceSave: int, saveInterval: int)
      returns (crawled': set<string>, sinceSave': int)
      modifies this
      ensures var q := VisitUnit(Progress(old(reviewData), crawled, sinceSave, []), ReadDetail(d), saveInterval);
        reviewData == q.data && crawled' == q.index && sinceSave' == q.sinceSave && snapshots == old(snapshots) + q.saves
    {
      crawled', sinceSave' := crawled, sinceSave;
      match d {
        case NotOpened =>
        case Opened(titleText, codeText, blocks) =>
          var title := PyStrip(titleText);
          var code := PyStrip(codeText);
          var key := CourseKey(title, code);
          if key !in crawled {
            ScrapeReviews(title, code, blocks);
            sinceSave' := sinceSave' + 1;
            crawled' := crawled' + {key};
            if sinceSave' >= saveInterval {
              SaveToJson();
              sinceSave' := 0;
            }
          }
      }
    }

    /** The loop of lines 242-338 over the course blocks, from the loaded records and
        their index: visit each block in turn and stop after one whose error handler
        failed. */
    method WalkCourses(units: seq<CourseUnit>, saveInterval: int) returns (crawled: set<string>, sinceSave: int,
                                                                            aborted: bool, ghost saves: seq<seq<ReviewRecord>>)
      modifies this
      ensures Walk(StartOf(old(reviewData)), StepsOf(units), saveInterval) == Outcome(Progress(reviewData, crawled, sinceSave, saves), aborted)
      ensures snapshots == old(snapshots) + saves
    {
      ghost var start := StartOf(reviewData);
      ghost var steps := StepsOf(units);
      crawled := BuildIndex(reviewData);
      saves := [];
      sinceSave := 0;
      aborted := false;
      var i := 0;
      while i < |units| && !aborted
        invariant 0 <= i <= |units|
        invariant snapshots == old(snapshots) + saves
        invariant Walk(start, steps[..i], saveInterval) == Outcome(Progress(reviewData, crawled, sinceSave, saves), aborted)
      {
        ghost var p := Progress(reviewData, crawled, sinceSave, saves);
        WalkNext(start, steps, i, saveInterval);
        assert steps[i] == Step(ReadDetail(units[i].detail), units[i].handlerFails);
        crawled, sinceSave := VisitCourse(units[i].detail, crawled, sinceSave, saveInterval);
        VisitUnitSaves(p, ReadDetail(units[i].detail), saveInterval);
        saves := VisitUnit(p, ReadDetail(units[i].detail), saveInterval).saves;
        if units[i].handlerFails {
          aborted := true;
        }
        i := i + 1;
      }
      if aborted {
        WalkStopsAtAbort(start, steps, i, saveInterval);
      } else {
        assert steps[..i] == steps;
      }
    }

    /** `scrape_courses(save_interval, filename)`: load, walk the course blocks, and save
        once more at the end (or, on the failure path, whatever is in memory). */
    method ScrapeCourses(load: LoadOutcome, listing: CourseList, saveInterval: int)
      modifies this
      ensures reviewData == ScrapeRun(old(reviewData), load, listing, saveInterval).data
      ensures snapshots == old(snapshots) + ScrapeRun(old(reviewData), load, listing, saveInterval).saves
    {
      match load {
        case NoFile =>
        case Unreadable => reviewData := [];
        case Loaded(records) => reviewData := records;
      }
      assert reviewData == LoadedData(old(reviewData), load);
      if listing.ListingFails? {
        if reviewData != [] {
          SaveToJson();
        }
        return;
      }
      var units := listing.units;
      if |units| == 0 {
        return;
      }
      var crawled, sinceSave, aborted, saves := WalkCourses(units, saveInterval);
      if aborted {
        if reviewData != [] {
          SaveToJson();
        }
      } else if sinceSave > 0 {
        SaveToJson();
      }
    }

    /** `main`: when the filters leave results, crawl with a save interval of 5. */
    method RunCrawl(resultsExist: bool, load: LoadOutcome, listing: CourseList)
      modifies this
      ensures !resultsExist ==> reviewData == old(reviewData) && snapshots == old(snapshots)
      ensures resultsExist ==> reviewData == ScrapeRun(old(reviewData), load, listing, 5).data
      ensures resultsExist ==> snapshots == old(snapshots) + ScrapeRun(old(reviewData), load, listing, 5).saves
    {
      if resultsExist {
        ScrapeCourses(load, listing, 5);
      }
    }
  }
}
