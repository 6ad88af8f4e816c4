/** The catalogue record used by the timetable hooks and the timetable grid: one course
    section with its weekly time blocks given as hours and minutes. */
module Catalog {
  import opened Common

  /** One weekly meeting: day 0 (Monday) to 6 (Sunday), start and end as hour and minute. */
  datatype TimeBlock = TimeBlock(date: int, sh: int, sm: int, eh: int, em: int)

  /** A section of the catalogue (`kind` is the record's `type` field, a keyword here).
      `dept` and `group` are absent for some records. The
      fields no modelled code reads (old code, room, exams, Korean code, AU, capacity,
      registrations) are left out. */
  datatype Subject = Subject(
    dept: Option<int>,
    kind: string,
    code: string,
    title: string,
    group: Option<string>,
    prof: seq<string>,
    time: seq<TimeBlock>,
    credit: real)
}
