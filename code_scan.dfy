/**
  Extraction of course codes (two or three capital letters, a dot, five digits, such as
  `CS.20004`) from the text of an assistant reply. The chat server and the AI timetable page
  both try a list of regular expressions in order and keep the first one that finds anything.

  A regular expression is modelled by an anchored matcher `MatchAt` (does the pattern match
  starting exactly at position `i`, and where does the match end?) and by the leftmost
  search `FindMatch` a regular expression performs. The patterns have no ambiguous ways of
  matching: `[A-Z]{2,3}` is greedy, and when the third character is a capital letter the
  two-letter alternative cannot continue (a capital letter is neither `.`, a separator nor a
  digit), so `LetterCount` fixes the only length that can lead to a match. The loose
  pattern's separator run is followed by digits, which are never separators, so the greedy
  run is the only one that can succeed.
*/
module CodeScan {
  import opened Common
  import opened Text

  /** The four regular expressions of the extraction:
      bracket `\[([A-Z]{2,3}\.[0-9]{5})\]`, bold `\*\*([A-Z]{2,3}\.[0-9]{5})\*\*`,
      strict `[A-Z]{2,3}\.[0-9]{5}` and loose `([A-Z]{2,3})[.\s-_]*([0-9]{5})`. */
  datatype Pattern = Bracket | Bold | Strict | Loose

  /** One match, as positions in the text: the capital letters start at `letters` and are
      `count` long, the five digits start at `digits`, and the match ends just before `end`
      (where a global regular expression's `lastIndex` resumes). */
  datatype Hit = Hit(letters: nat, count: nat, digits: nat, end: nat)

  /** A match found by the leftmost search, with its start position. */
  datatype Found = Found(start: nat, hit: Hit)

  /** The code a match yields: its letters, a dot and its digits (`${m[1]}.${m[2]}` for the
      loose pattern; the captured code itself for the others). */
  function Code(s: string, h: Hit): string
  {
    if h.letters + h.count <= |s| && h.digits + 5 <= |s|
    then s[h.letters..h.letters + h.count] + "." + s[h.digits..h.digits + 5]
    else ""
  }

  /** Five decimal digits at positions `j` to `j + 4` of `s`. */
  predicate FiveDigitsAt(s: string, j: nat)
  {
    j + 5 <= |s| && IsDigit(s[j]) && IsDigit(s[j + 1]) && IsDigit(s[j + 2]) && IsDigit(s[j + 3]) && IsDigit(s[j + 4])
  }

  /** The normalised course code shape: 2 or 3 capital letters, a dot, 5 digits. */
  predicate IsCourseCode(c: string)
  {
    (|c| == 8 || |c| == 9) && IsUpper(c[0]) && IsUpper(c[1]) && (|c| == 9 ==> IsUpper(c[2]))
    && c[|c| - 6] == '.' && FiveDigitsAt(c, |c| - 5)
  }

  /** The only letter count `[A-Z]{2,3}` can use at `i` in a successful match. */
  function LetterCount(s: string, i: nat): nat
  {
    if i + 2 < |s| && IsUpper(s[i + 2]) then 3 else 2
  }

  /** `[A-Z]{2,3}\.[0-9]{5}` anchored at `i`: how many letters the code there has. */
  function CodeAt(s: string, i: nat): Option<nat>
  {
    var l := LetterCount(s, i);
    if i + l + 6 <= |s| && IsUpper(s[i]) && IsUpper(s[i + 1]) && s[i + l] == '.' && FiveDigitsAt(s, i + l + 1)
    then Some(l)
    else None
  }

  /** The loose pattern's separator class `[.\s-_]`: a dot, white space, `-` or `_`. */
  predicate IsLooseSeparator(c: char)
  {
    c == '.' || IsJsWhitespace(c) || c == '-' || c == '_'
  }

  /** The end of the greedy separator run `[.\s-_]*` that starts at `j`. */
  function SeparatorRunEnd(s: string, j: nat): nat
    requires j <= |s|
    ensures j <= SeparatorRunEnd(s, j) <= |s|
    decreases |s| - j
  {
    if j < |s| && IsLooseSeparator(s[j]) then SeparatorRunEnd(s, j + 1) else j
  }

  function StrictAt(s: string, i: nat): Option<Hit>
  {
    match CodeAt(s, i)
    case None => None
    case Some(l) => Some(Hit(i, l, i + l + 1, i + l + 6))
  }

  function BracketAt(s: string, i: nat): Option<Hit>
  {
    if i < |s| && s[i] == '[' then
      match CodeAt(s, i + 1)
      case None => None
      case Some(l) => if i + l + 7 < |s| && s[i + l + 7] == ']' then Some(Hit(i + 1, l, i + l + 2, i + l + 8)) else None
    else None
  }

  function BoldAt(s: string, i: nat): Option<Hit>
  {
    if i + 1 < |s| && s[i] == '*' && s[i + 1] == '*' then
      match CodeAt(s, i + 2)
      case None => None
      case Some(l) =>
        if i + l + 9 < |s| && s[i + l + 8] == '*' && s[i + l + 9] == '*' then Some(Hit(i + 2, l, i + l + 3, i + l + 10)) else None
    else None
  }

  function LooseAt(s: string, i: nat): Option<Hit>
  {
    var l := LetterCount(s, i);
    if i + l <= |s| && IsUpper(s[i]) && IsUpper(s[i + 1]) then
      var j := SeparatorRunEnd(s, i + l);
      if FiveDigitsAt(s, j) then Some(Hit(i, l, j, j + 5)) else None
    else None
  }

  /** Pattern `p` anchored at position `i` of `s`. */
  function MatchAt(p: Pattern, s: string, i: nat): Option<Hit>
  {
    match p
    case Bracket => BracketAt(s, i)
    case Bold => BoldAt(s, i)
    case Strict => StrictAt(s, i)
    case Loose => LooseAt(s, i)
  }

  /** Letters read at `letters` and digits read at `digits` make a well-formed code. */
  lemma CodeShape(s: string, h: Hit)
    requires h.count == 2 || h.count == 3
    requires h.letters + h.count <= |s| && FiveDigitsAt(s, h.digits)
    requires forall k :: h.letters <= k < h.letters + h.count ==> IsUpper(s[k])
    ensures IsCourseCode(Code(s, h)) && |Code(s, h)| == h.count + 6
  {
    var c := Code(s, h);
    assert c[0] == s[h.letters] && c[1] == s[h.letters + 1];
    assert h.count == 3 ==> c[2] == s[h.letters + 2];
    assert c[h.count] == '.';
    var d := h.count + 1;
    assert c[d] == s[h.digits] && c[d + 1] == s[h.digits + 1] && c[d + 2] == s[h.digits + 2];
    assert c[d + 3] == s[h.digits + 3] && c[d + 4] == s[h.digits + 4];
  }

  /** The strict pattern yields the code written at `i`, well formed. */
  lemma StrictAtSpec(s: string, i: nat)
    ensures StrictAt(s, i).Some? ==>
      var h := StrictAt(s, i).value;
      IsCourseCode(Code(s, h)) && h.end <= |s| && Code(s, h) == s[i..h.end]
  {
    if StrictAt(s, i).Some? {
      var h := StrictAt(s, i).value;
      CodeShape(s, h);
      assert s[i..h.end] == s[i..i + h.count] + "." + s[h.digits..h.end];
    }
  }

  /** Three pieces written side by side make their concatenation. */
  lemma Framed(s: string, i: nat, front: string, c: string, back: string)
    requires OccursAt(s, front, i) && OccursAt(s, c, i + |front|) && OccursAt(s, back, i + |front| + |c|)
    ensures OccursAt(s, front + c + back, i)
  {
    var j, k := i + |front|, i + |front| + |c|;
    assert s[i..k + |back|] == s[i..j] + s[j..k] + s[k..k + |back|];
  }

  /** The bracket pattern yields a well-formed code written between `[` and `]`. */
  lemma BracketAtSpec(s: string, i: nat)
    ensures BracketAt(s, i).Some? ==>
      var h := BracketAt(s, i).value; var c := Code(s, h);
      IsCourseCode(c) && h.end == i + |c| + 2 && h.end <= |s| && OccursAt(s, "[" + c + "]", i)
  {
    if BracketAt(s, i).Some? {
      var h := BracketAt(s, i).value;
      var c := Code(s, h);
      var l := h.count;
      StrictAtSpec(s, i + 1);
      assert Code(s, StrictAt(s, i + 1).value) == c;
      assert |c| == l + 6;
      assert OccursAt(s, "[", i) by { assert s[i..i + 1] == [s[i]]; }
      assert OccursAt(s, "]", i + l + 7) by { assert s[i + l + 7..i + l + 8] == [s[i + l + 7]]; }
      Framed(s, i, "[", c, "]");
    }
  }

  /** The bold pattern yields a well-formed code written between `**` and `**`. */
  lemma BoldAtSpec(s: string, i: nat)
    ensures BoldAt(s, i).Some? ==>
      var h := BoldAt(s, i).value; var c := Code(s, h);
      IsCourseCode(c) && h.end == i + |c| + 4 && h.end <= |s| && OccursAt(s, "**" + c + "**", i)
  {
    if BoldAt(s, i).Some? {
      var h := BoldAt(s, i).value;
      var c := Code(s, h);
      var l := h.count;
      StrictAtSpec(s, i + 2);
      assert Code(s, StrictAt(s, i + 2).value) == c;
      assert |c| == l + 6;
      assert OccursAt(s, "**", i) by { assert s[i..i + 2] == [s[i], s[i + 1]]; }
      assert OccursAt(s, "**", i + l + 8) by { assert s[i + l + 8..i + l + 10] == [s[i + l + 8], s[i + l + 9]]; }
      Framed(s, i, "**", c, "**");
    }
  }

  /** The loose pattern normalises what it matches: the letters written at `i`, a dot, and
      the five digits that end the match, with only separators in between. */
  lemma LooseAtSpec(s: string, i: nat)
    ensures LooseAt(s, i).Some? ==>
      var h := LooseAt(s, i).value; var c := Code(s, h);
      IsCourseCode(c) && h.letters == i && i + h.count <= h.digits && h.digits + 5 == h.end <= |s|
      && c == s[i..i + h.count] + "." + s[h.digits..h.end]
      && forall k :: i + h.count <= k < h.digits ==> IsLooseSeparator(s[k])
  {
    if LooseAt(s, i).Some? {
      var h := LooseAt(s, i).value;
      SeparatorRunSpec(s, i + h.count);
      CodeShape(s, h);
    }
  }

  lemma {:induction false} SeparatorRunSpec(s: string, j: nat)
    requires j <= |s|
    ensures forall k :: j <= k < SeparatorRunEnd(s, j) ==> IsLooseSeparator(s[k])
    decreases |s| - j
  {
    if j < |s| && IsLooseSeparator(s[j]) {
      SeparatorRunSpec(s, j + 1);
    }
  }

  /** A match ends after it starts, inside the text, and yields a well-formed code. */
  lemma MatchAtBounds(p: Pattern, s: string, i: nat)
    ensures MatchAt(p, s, i).Some? ==>
      i < MatchAt(p, s, i).value.end <= |s| && IsCourseCode(Code(s, MatchAt(p, s, i).value))
  {
    match p
    case Strict => StrictAtSpec(s, i);
    case Bracket => BracketAtSpec(s, i);
    case Bold => BoldAtSpec(s, i);
    case Loose => LooseAtSpec(s, i);
  }

  /** Every code the bracket or bold pattern finds, the strict pattern finds just inside the
      markers: the marked patterns only narrow the strict one. */
  lemma MarkedImpliesStrict(s: string, i: nat)
    ensures BracketAt(s, i).Some? ==>
      StrictAt(s, i + 1).Some? && Code(s, StrictAt(s, i + 1).value) == Code(s, BracketAt(s, i).value)
    ensures BoldAt(s, i).Some? ==>
      StrictAt(s, i + 2).Some? && Code(s, StrictAt(s, i + 2).value) == Code(s, BoldAt(s, i).value)
  {
  }

  /** The loose pattern generalises the strict one: where the strict pattern matches, the
      loose pattern matches the same text and normalises it to the same code. */
  lemma LooseCoversStrict(s: string, i: nat)
    ensures StrictAt(s, i).Some? ==> LooseAt(s, i) == StrictAt(s, i)
  {
    if StrictAt(s, i).Some? {
      var l := LetterCount(s, i);
      assert IsLooseSeparator(s[i + l]);
      assert !IsLooseSeparator(s[i + l + 1]);
      assert SeparatorRunEnd(s, i + l + 1) == i + l + 1;
      assert SeparatorRunEnd(s, i + l) == i + l + 1;
    }
  }

  /** Leftmost search: the first position at or after `i` where `p` matches. */
  function FindMatch(p: Pattern, s: string, i: nat): Option<Found>
    decreases |s| - i
  {
    if i >= |s| then None
    else match MatchAt(p, s, i)
      case Some(h) => Some(Found(i, h))
      case None => FindMatch(p, s, i + 1)
  }

  lemma {:induction false} FindMatchSpec(p: Pattern, s: string, i: nat)
    ensures match FindMatch(p, s, i)
      case Some(f) =>
        i <= f.start < f.hit.end <= |s| && MatchAt(p, s, f.start) == Some(f.hit)
        && forall k :: i <= k < f.start ==> MatchAt(p, s, k).None?
      case None => forall k :: i <= k < |s| ==> MatchAt(p, s, k).None?
    decreases |s| - i
  {
    if i < |s| {
      MatchAtBounds(p, s, i);
      if MatchAt(p, s, i).None? {
        FindMatchSpec(p, s, i + 1);
      }
    }
  }

  /** A found match lies at or after the search start and ends after it. */
  lemma FindMatchAdvances(p: Pattern, s: string, i: nat)
    ensures FindMatch(p, s, i).Some? ==>
      i <= FindMatch(p, s, i).value.start < FindMatch(p, s, i).value.hit.end <= |s|
  {
    FindMatchSpec(p, s, i);
  }

  /** The codes a global `exec` loop collects from position `pos` on: each search resumes
      where the previous match ended. */
  function AllMatchesFrom(p: Pattern, s: string, pos: nat): seq<string>
    decreases |s| - pos
  {
    match FindMatch(p, s, pos)
    case None => []
    case Some(f) =>
      FindMatchAdvances(p, s, pos);
      [Code(s, f.hit)] + AllMatchesFrom(p, s, f.hit.end)
  }

  /** One `exec` call: either nothing more is found, or one code and the rest from its end. */
  lemma AllMatchesFromStep(p: Pattern, s: string, pos: nat)
    ensures FindMatch(p, s, pos).None? ==> AllMatchesFrom(p, s, pos) == []
    ensures FindMatch(p, s, pos).Some? ==>
      var f := FindMatch(p, s, pos).value;
      pos < f.hit.end <= |s| && AllMatchesFrom(p, s, pos) == [Code(s, f.hit)] + AllMatchesFrom(p, s, f.hit.end)
  {
    FindMatchAdvances(p, s, pos);
  }

  function AllMatches(p: Pattern, s: string): seq<string>
  {
    AllMatchesFrom(p, s, 0)
  }

  /** One `re.exec(s)` call with `lastIndex` at `pos`: try each position in turn until the
      pattern matches there. */
  method Exec(p: Pattern, s: string, pos: nat) returns (m: Option<Found>)
    ensures m == FindMatch(p, s, pos)
  {
    var i := pos;
    while i < |s| && MatchAt(p, s, i).None?
      invariant pos <= i && FindMatch(p, s, i) == FindMatch(p, s, pos)
      decreases |s| - i
    {
      i := i + 1;
    }
    if i < |s| {
      m := Some(Found(i, MatchAt(p, s, i).value));
    } else {
      m := None;
    }
  }

  /** `while ((m = re.exec(s)) !== null) out.push(m[1])` with a global regular expression
      (and `s.match(re)`, which collects the same list). */
  method ExecAll(p: Pattern, s: string) returns (codes: seq<string>)
    ensures codes == AllMatches(p, s)
  {
    var pos := 0;
    codes := [];
    var m := Exec(p, s, pos);
    while m.Some?
      invariant m == FindMatch(p, s, pos)
      invariant codes + AllMatchesFrom(p, s, pos) == AllMatches(p, s)
      decreases |s| - pos
    {
      ExecAllStep(p, s, pos, codes);
      codes := codes + [Code(s, m.value.hit)];
      pos := m.value.hit.end;
      m := Exec(p, s, pos);
    }
    AllMatchesFromStep(p, s, pos);
    assert codes + [] == codes;
  }

  /** The loop step of `ExecAll`: pushing the found code and resuming at its end keeps the
      collected codes plus those still to come equal to the whole list. */
  lemma ExecAllStep(p: Pattern, s: string, pos: nat, codes: seq<string>)
    requires FindMatch(p, s, pos).Some?
    requires codes + AllMatchesFrom(p, s, pos) == AllMatches(p, s)
    ensures var f := FindMatch(p, s, pos).value;
      pos < f.hit.end <= |s| && (codes + [Code(s, f.hit)]) + AllMatchesFrom(p, s, f.hit.end) == AllMatches(p, s)
  {
    AllMatchesFromStep(p, s, pos);
    var f := FindMatch(p, s, pos).value;
    var rest := AllMatchesFrom(p, s, f.hit.end);
    assert codes + [Code(s, f.hit)] + rest == codes + ([Code(s, f.hit)] + rest);
  }

  /** Every collected code is well formed and is what the pattern matched somewhere. */
  lemma {:induction false} AllMatchesFromSound(p: Pattern, s: string, pos: nat)
    ensures forall c :: c in AllMatchesFrom(p, s, pos) ==>
      IsCourseCode(c) && exists i :: pos <= i < |s| && MatchAt(p, s, i).Some? && Code(s, MatchAt(p, s, i).value) == c
    decreases |s| - pos
  {
    FindMatchSpec(p, s, pos);
    match FindMatch(p, s, pos)
    case None =>
    case Some(f) =>
      MatchAtBounds(p, s, f.start);
      AllMatchesFromSound(p, s, f.hit.end);
  }

  /** The loop collects nothing exactly when the pattern matches nowhere. */
  lemma AllMatchesFromEmpty(p: Pattern, s: string, pos: nat)
    ensures AllMatchesFrom(p, s, pos) == [] <==> forall i :: pos <= i < |s| ==> MatchAt(p, s, i).None?
  {
    FindMatchSpec(p, s, pos);
  }

  /** The leftmost match is always collected, and collected first. */
  lemma LeftmostCollectedFirst(p: Pattern, s: string, i: nat)
    requires i < |s| && MatchAt(p, s, i).Some?
    requires forall k :: 0 <= k < i ==> MatchAt(p, s, k).None?
    ensures AllMatches(p, s) != [] && AllMatches(p, s)[0] == Code(s, MatchAt(p, s, i).value)
  {
    FindMatchSpec(p, s, 0);
  }

  lemma AllMatchesSpec(p: Pattern, s: string)
    ensures forall c :: c in AllMatches(p, s) ==>
      IsCourseCode(c) && exists i :: 0 <= i < |s| && MatchAt(p, s, i).Some? && Code(s, MatchAt(p, s, i).value) == c
    ensures AllMatches(p, s) == [] <==> forall i :: 0 <= i < |s| ==> MatchAt(p, s, i).None?
  {
    AllMatchesFromSound(p, s, 0);
    AllMatchesFromEmpty(p, s, 0);
  }

  /** The tier rule of both parsers: the first pattern that collects anything wins, and its
      codes are de-duplicated keeping first occurrences; nothing found gives `[]`. */
  function FirstTier(tiers: seq<Pattern>, s: string): seq<string>
  {
    if tiers == [] then []
    else
      var m := AllMatches(tiers[0], s);
      if m != [] then Unique(m) else FirstTier(tiers[1..], s)
  }

  /** The chat server's order: bracket, bold, strict, loose. */
  const ServerTiers: seq<Pattern> := [Bracket, Bold, Strict, Loose]

  /** The timetable page's order: bold, strict, loose. */
  const ClientTiers: seq<Pattern> := [Bold, Strict, Loose]

  /** What the tier rule returns: either the de-duplicated codes of the first productive
      tier, all earlier tiers having found nothing, or `[]` when no tier finds anything. */
  lemma {:induction false} FirstTierSpec(tiers: seq<Pattern>, s: string)
    ensures var r := FirstTier(tiers, s);
      (r == [] <==> forall k :: 0 <= k < |tiers| ==> AllMatches(tiers[k], s) == [])
      && (r != [] ==>
            (exists k :: 0 <= k < |tiers| && r == Unique(AllMatches(tiers[k], s))
               && forall j :: 0 <= j < k ==> AllMatches(tiers[j], s) == []))
  {
    if tiers != [] {
      var m := AllMatches(tiers[0], s);
      if m != [] {
        UniqueProperties(m);
      } else {
        FirstTierSpec(tiers[1..], s);
        var r := FirstTier(tiers, s);
        assert r == FirstTier(tiers[1..], s);
        assert forall k :: 1 <= k < |tiers| ==> tiers[k] == tiers[1..][k - 1];
        if r != [] {
          var k :| 0 <= k < |tiers[1..]| && r == Unique(AllMatches(tiers[1..][k], s))
            && forall j :: 0 <= j < k ==> AllMatches(tiers[1..][j], s) == [];
          assert r == Unique(AllMatches(tiers[k + 1], s));
          assert forall j :: 0 <= j < k + 1 ==> AllMatches(tiers[j], s) == [] by {
            forall j | 0 <= j < k + 1 ensures AllMatches(tiers[j], s) == [] {
              if j > 0 { assert tiers[j] == tiers[1..][j - 1]; }
            }
          }
        }
      }
    }
  }

  /** Whatever tier wins, the result has no repeats and every code in it is well formed and
      was found in the text by one of the tiers. */
  lemma {:induction false} FirstTierCodes(tiers: seq<Pattern>, s: string)
    ensures NoDuplicates(FirstTier(tiers, s))
    ensures forall c :: c in FirstTier(tiers, s) ==>
      IsCourseCode(c) && exists k :: 0 <= k < |tiers| && c in AllMatches(tiers[k], s)
  {
    if tiers != [] {
      var m := AllMatches(tiers[0], s);
      AllMatchesSpec(tiers[0], s);
      if m != [] {
        UniqueProperties(m);
      } else {
        FirstTierCodes(tiers[1..], s);
        forall c | c in FirstTier(tiers, s)
          ensures exists k :: 0 <= k < |tiers| && c in AllMatches(tiers[k], s)
        {
          var k :| 0 <= k < |tiers[1..]| && c in AllMatches(tiers[1..][k], s);
          assert tiers[k + 1] == tiers[1..][k];
        }
      }
    }
  }

  /** A bracketed code anywhere decides the server's answer on its own. */
  lemma ServerBracketWins(s: string)
    requires AllMatches(Bracket, s) != []
    ensures FirstTier(ServerTiers, s) == Unique(AllMatches(Bracket, s))
  {
  }

  /** Without a bracketed code the server and the page extract the same codes. */
  lemma ServerWithoutBracketsIsClient(s: string)
    requires AllMatches(Bracket, s) == []
    ensures FirstTier(ServerTiers, s) == FirstTier(ClientTiers, s)
  {
    assert ServerTiers[1..] == ClientTiers;
  }

  /** A text in which even the loose pattern matches nowhere yields no codes. */
  lemma NoLooseMatchNoCodes(s: string)
    requires AllMatches(Loose, s) == []
    ensures FirstTier(ServerTiers, s) == [] && FirstTier(ClientTiers, s) == []
  {
    AllMatchesSpec(Loose, s);
    forall i | 0 <= i < |s| ensures StrictAt(s, i).None? {
      LooseCoversStrict(s, i);
      assert MatchAt(Loose, s, i) == LooseAt(s, i);
    }
    forall i | 0 <= i < |s| ensures MatchAt(Strict, s, i).None? && MatchAt(Bracket, s, i).None? && MatchAt(Bold, s, i).None? {
      MarkedImpliesStrict(s, i);
      StrictAtSpec(s, i + 1);
      StrictAtSpec(s, i + 2);
    }
    AllMatchesSpec(Bracket, s);
    AllMatchesSpec(Bold, s);
    AllMatchesSpec(Strict, s);
    assert FirstTier([Loose], s) == [];
    assert [Strict, Loose][1..] == [Loose];
    assert FirstTier([Strict, Loose], s) == [];
    assert ClientTiers[1..] == [Strict, Loose];
    assert ServerTiers[1..] == ClientTiers;
  }
}
