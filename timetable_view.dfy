/**
  The absolutely positioned timetable view: each catalogue time block between 9:00 and 21:00
  becomes a coloured box whose top and height follow its start and end times at 40 pixels an
  hour, below a 40-pixel header row. The colour is picked from a palette of ten by the sum of
  the code's character codes.

  Horizontal placement comes from the measured container width and is not modelled.
*/
module TimetableView {
  import opened Common
  import opened Catalog

  const StartHour: int := 9
  const EndHour: int := 21
  /** `rowHeight`, which is also the height the cell dimensions always keep. */
  const RowHeight: real := 40.0
  const HeaderHeight: real := 40.0

  const Palette: seq<string> := [
    "#E57373", "#9575CD", "#4FC3F7", "#81C784", "#FFF176",
    "#FF8A65", "#F06292", "#7986CB", "#4DD0E1", "#AED581"
  ]

  /** `c.charCodeAt(0)` for one code point of `Array.from(code)`: the code point itself in
      the Basic Multilingual Plane, the leading (high) surrogate above it. */
  function CharCode(c: char): (r: nat)
    ensures r < 0x10000
    ensures (c as int) < 0x10000 ==> r == c as int
    ensures (c as int) >= 0x10000 ==> 0xD800 <= r < 0xDC00
  {
    if (c as int) < 0x10000 then c as int else 0xD800 + ((c as int) - 0x10000) / 0x400
  }

  /** The `reduce` of the character codes. */
  function Hash(code: string): nat
    decreases |code|
  {
    if code == [] then 0 else Hash(code[..|code| - 1]) + CharCode(code[|code| - 1])
  }

  function CharCodeReal(c: char): real
  {
    CharCode(c) as real
  }

  lemma {:induction false} HashAsSum(code: string)
    ensures Hash(code) as real == SumBy(code, CharCodeReal)
    decreases |code|
  {
    if code != [] {
      HashAsSum(code[..|code| - 1]);
    }
  }

  /** The hash of a concatenation is the sum of the hashes. */
  lemma {:induction false} HashAppend(a: string, b: string)
    ensures Hash(a + b) == Hash(a) + Hash(b)
    decreases |b|
  {
    if b == [] {
      assert a + b == a;
    } else {
      assert (a + b)[..|a + b| - 1] == a + b[..|b| - 1];
      assert (a + b)[|a + b| - 1] == b[|b| - 1];
      HashAppend(a, b[..|b| - 1]);
    }
  }

  /** The hash depends only on which characters occur how often. */
  lemma HashPermutation(a: string, b: string)
    requires multiset(a) == multiset(b)
    ensures Hash(a) == Hash(b)
  {
    HashAsSum(a);
    HashAsSum(b);
    SumByPermutation(a, b, CharCodeReal);
  }

  /** `getColorFromCode`. */
  function ColorFromCode(code: string): string
  {
    Palette[Hash(code) % |Palette|]
  }

  /** The colour is always one of the ten palette entries, the one at the hash modulo ten,
      and codes with the same characters in any order get the same colour. */
  lemma ColorFromCodeSpec(code: string, other: string)
    ensures ColorFromCode(code) in Palette
    ensures multiset(code) == multiset(other) ==> ColorFromCode(code) == ColorFromCode(other)
  {
    if multiset(code) == multiset(other) {
      HashPermutation(code, other);
    }
  }

  /** A one-character code gets the palette entry at its character code modulo ten (the
      code point itself in the Basic Multilingual Plane), and appending a character moves
      the entry on by that character's code. */
  lemma ColorOfOneChar(code: string, c: char)
    ensures ColorFromCode([c]) == Palette[CharCode(c) % 10]
    ensures (c as int) < 0x10000 ==> ColorFromCode([c]) == Palette[(c as int) % 10]
    ensures ColorFromCode(code + [c]) == Palette[(Hash(code) + CharCode(c)) % 10]
  {
    assert |Palette| == 10;
    assert [c][..0] == [];
    assert Hash([c]) == CharCode(c);
    assert (code + [c])[..|code + [c]| - 1] == code;
    assert Hash(code + [c]) == Hash(code) + CharCode(c);
  }

  /** The render skips a block starting before 9 or ending after 21 (by hour). */
  predicate Visible(t: TimeBlock)
  {
    !(t.sh < StartHour || t.eh > EndHour)
  }

  function Top(t: TimeBlock): real
  {
    HeaderHeight + (t.sh - StartHour) as real * RowHeight + (t.sm as real / 60.0) * RowHeight
  }

  function Height(t: TimeBlock): real
  {
    (t.eh - t.sh) as real * RowHeight + ((t.em - t.sm) as real / 60.0) * RowHeight
  }

  function Minutes(hour: int, minute: int): int
  {
    hour * 60 + minute
  }

  /** The top edge sits below the header by the minutes since 9:00 at 40 pixels an hour, the
      height is the duration at the same rate, so the bottom edge marks the end time; a
      visible block with a non-negative start minute starts below the header. */
  lemma GeometrySpec(t: TimeBlock)
    ensures Top(t) == HeaderHeight + (Minutes(t.sh, t.sm) - Minutes(StartHour, 0)) as real * RowHeight / 60.0
    ensures Height(t) == (Minutes(t.eh, t.em) - Minutes(t.sh, t.sm)) as real * RowHeight / 60.0
    ensures Top(t) + Height(t) == HeaderHeight + (Minutes(t.eh, t.em) - Minutes(StartHour, 0)) as real * RowHeight / 60.0
    ensures Visible(t) && t.sm >= 0 ==> Top(t) >= HeaderHeight
  {
  }

  /** One rendered box: key `${code}-${group || ""}-${i}`, vertical geometry and colour. */
  datatype Block = Block(code: string, group: string, index: nat, top: real, height: real, color: string)

  function MakeBlock(s: Subject, i: nat): Block
    requires i < |s.time|
  {
    var group := if s.group.Some? then s.group.value else "";
    Block(s.code, group, i, Top(s.time[i]), Height(s.time[i]), ColorFromCode(s.code))
  }

  /** The boxes of the time blocks of `s` from index `i` on (`null` for hidden ones). */
  function BlocksFrom(s: Subject, i: nat): seq<Block>
    requires i <= |s.time|
    decreases |s.time| - i
  {
    if i == |s.time| then []
    else (if Visible(s.time[i]) then [MakeBlock(s, i)] else []) + BlocksFrom(s, i + 1)
  }

  /** All boxes of all subjects, subject after subject. */
  function Blocks(subjects: seq<Subject>): seq<Block>
    decreases |subjects|
  {
    if subjects == [] then [] else BlocksFrom(subjects[0], 0) + Blocks(subjects[1..])
  }

  /** The number of visible time blocks. */
  function VisibleCount(ts: seq<TimeBlock>): nat
    decreases |ts|
  {
    if ts == [] then 0 else (if Visible(ts[0]) then 1 else 0) + VisibleCount(ts[1..])
  }

  function VisibleTotal(subjects: seq<Subject>): nat
    decreases |subjects|
  {
    if subjects == [] then 0 else VisibleCount(subjects[0].time) + VisibleTotal(subjects[1..])
  }

  /** Boxes from `i` on: one per visible time block, and exactly the visible ones. */
  lemma {:induction false} BlocksFromSpec(s: Subject, i: nat)
    requires i <= |s.time|
    ensures |BlocksFrom(s, i)| == VisibleCount(s.time[i..])
    ensures forall b :: b in BlocksFrom(s, i) <==>
      exists j :: i <= j < |s.time| && Visible(s.time[j]) && b == MakeBlock(s, j)
    decreases |s.time| - i
  {
    if i < |s.time| {
      BlocksFromSpec(s, i + 1);
      assert s.time[i..][0] == s.time[i] && s.time[i..][1..] == s.time[i + 1..];
      forall b ensures b in BlocksFrom(s, i) <==>
        exists j :: i <= j < |s.time| && Visible(s.time[j]) && b == MakeBlock(s, j)
      {
        if exists j :: i <= j < |s.time| && Visible(s.time[j]) && b == MakeBlock(s, j) {
          var j :| i <= j < |s.time| && Visible(s.time[j]) && b == MakeBlock(s, j);
          if j > i {
            assert b in BlocksFrom(s, i + 1);
          }
        }
      }
    }
  }

  /** A box of the subject at `k` for its time block `j`. */
  predicate IsVisibleBlock(subjects: seq<Subject>, b: Block)
  {
    exists k, j :: 0 <= k < |subjects| && 0 <= j < |subjects[k].time| && Visible(subjects[k].time[j])
      && b == MakeBlock(subjects[k], j)
  }

  lemma VisibleBlockCons(subjects: seq<Subject>, b: Block)
    requires subjects != []
    ensures IsVisibleBlock(subjects, b) <==> b in BlocksFrom(subjects[0], 0) || IsVisibleBlock(subjects[1..], b)
  {
    var rest := subjects[1..];
    BlocksFromSpec(subjects[0], 0);
    if IsVisibleBlock(rest, b) {
      var k, j :| 0 <= k < |rest| && 0 <= j < |rest[k].time| && Visible(rest[k].time[j]) && b == MakeBlock(rest[k], j);
      assert subjects[k + 1] == rest[k];
    }
    if IsVisibleBlock(subjects, b) {
      var k, j :| 0 <= k < |subjects| && 0 <= j < |subjects[k].time| && Visible(subjects[k].time[j])
        && b == MakeBlock(subjects[k], j);
      if k > 0 {
        assert rest[k - 1] == subjects[k];
      }
    }
  }

  /** One box per visible time block: the count matches, and a box is drawn exactly for the
      visible time blocks of the subjects; a block outside 9:00 to 21:00 draws nothing. */
  lemma {:induction false} BlocksSpec(subjects: seq<Subject>)
    ensures |Blocks(subjects)| == VisibleTotal(subjects)
    ensures forall b :: b in Blocks(subjects) <==> IsVisibleBlock(subjects, b)
    decreases |subjects|
  {
    if subjects != [] {
      BlocksFromSpec(subjects[0], 0);
      assert subjects[0].time[0..] == subjects[0].time;
      BlocksSpec(subjects[1..]);
      forall b ensures b in Blocks(subjects) <==> IsVisibleBlock(subjects, b) {
        VisibleBlockCons(subjects, b);
      }
    }
  }
}
