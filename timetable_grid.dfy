/**
  The CSS-grid timetable component: every schedule slot of every course becomes one block,
  placed in the column of its day and in the half-hour rows its times cover. Slot times are
  minutes since 9:00.
*/
module TimetableGrid {
  import opened SubjectUtils

  /** One weekly slot: day 0 (Monday) to 4, start and end in minutes since 9:00. */
  datatype Slot = Slot(day: int, startTime: int, endTime: int)

  /** The component's own course record. */
  datatype Course = Course(id: string, code: string, name: string, professor: string, schedule: seq<Slot>,
                           color: string)

  /** `getPositionStyle`: column `day + 2`; start row and span by `Math.floor` and `Math.ceil`
      of divisions by 30. The column is past the time column, the start row is the half-hour
      row holding the start, and the span is the least number of half-hour rows covering the
      duration. */
  function PositionStyle(slot: Slot): (r: GridPosition)
    ensures r.column == slot.day + 2
    ensures (r.startRow - 2) * 30 <= slot.startTime < (r.startRow - 1) * 30
    ensures (r.span - 1) * 30 < slot.endTime - slot.startTime <= r.span * 30
  {
    var topPosition := slot.startTime;
    var height := slot.endTime - slot.startTime;
    GridPosition(slot.day + 2, topPosition / 30 + 2, -((-height) / 30))
  }

  /** The grid agrees with the shared schedule position once 9:00 is added back. */
  lemma PositionStyleAgrees(slot: Slot)
    ensures PositionStyle(slot) == SchedulePosition(Schedule(slot.day, slot.startTime + 540, slot.endTime + 540))
  {
  }

  /** A rendered block: the key `${course.id}-${index}`, its grid place and colour. */
  datatype CourseBlock = CourseBlock(courseId: string, index: nat, position: GridPosition, color: string)

  function SlotBlock(course: Course, index: nat): CourseBlock
    requires index < |course.schedule|
  {
    CourseBlock(course.id, index, PositionStyle(course.schedule[index]), course.color)
  }

  /** `course.schedule.map(...)`. */
  function CourseBlocks(course: Course): seq<CourseBlock>
  {
    seq(|course.schedule|, j requires 0 <= j < |course.schedule| => SlotBlock(course, j))
  }

  /** `courses.map(course => course.schedule.map(...))`, flattened. */
  function Blocks(courses: seq<Course>): seq<CourseBlock>
    decreases |courses|
  {
    if courses == [] then [] else CourseBlocks(courses[0]) + Blocks(courses[1..])
  }

  /** The number of slots of all courses. */
  function SlotCount(courses: seq<Course>): nat
    decreases |courses|
  {
    if courses == [] then 0 else |courses[0].schedule| + SlotCount(courses[1..])
  }

  /** `b` is the block of some slot of some course. */
  predicate IsSlotBlock(courses: seq<Course>, b: CourseBlock)
  {
    exists k, j :: 0 <= k < |courses| && 0 <= j < |courses[k].schedule| && b == SlotBlock(courses[k], j)
  }

  lemma SlotBlockCons(courses: seq<Course>, b: CourseBlock)
    requires courses != []
    ensures IsSlotBlock(courses, b) <==> b in CourseBlocks(courses[0]) || IsSlotBlock(courses[1..], b)
  {
    var rest := courses[1..];
    if b in CourseBlocks(courses[0]) {
      var j :| 0 <= j < |courses[0].schedule| && CourseBlocks(courses[0])[j] == b;
      assert b == SlotBlock(courses[0], j);
    }
    if IsSlotBlock(rest, b) {
      var k, j :| 0 <= k < |rest| && 0 <= j < |rest[k].schedule| && b == SlotBlock(rest[k], j);
      assert courses[k + 1] == rest[k];
    }
    if IsSlotBlock(courses, b) {
      var k, j :| 0 <= k < |courses| && 0 <= j < |courses[k].schedule| && b == SlotBlock(courses[k], j);
      if k == 0 {
        assert CourseBlocks(courses[0])[j] == b;
      } else {
        assert rest[k - 1] == courses[k];
      }
    }
  }

  /** Exactly one block per slot: as many blocks as slots, and a block is there exactly when
      it is the block of some slot of some course. */
  lemma {:induction false} BlocksSpec(courses: seq<Course>)
    ensures |Blocks(courses)| == SlotCount(courses)
    ensures forall b :: b in Blocks(courses) <==> IsSlotBlock(courses, b)
    decreases |courses|
  {
    if courses != [] {
      BlocksSpec(courses[1..]);
      forall b ensures b in Blocks(courses) <==> IsSlotBlock(courses, b) {
        SlotBlockCons(courses, b);
      }
    }
  }
}
