/** The `useTimetable` hook: a list of chosen catalogue sections. A section is added only
    when none of its time blocks overlaps, by the hour, a block of an already chosen one;
    sections are removed by code and group. */
module UseTimetable {
  import opened Common
  import opened Catalog

  /** Two blocks clash: same day and overlapping hour ranges (minutes are not looked at). */
  predicate BlocksClash(t1: TimeBlock, t2: TimeBlock)
  {
    t1.date == t2.date && !(t1.eh <= t2.sh || t2.eh <= t1.sh)
  }

  /** Some block of `a` clashes with some block of `b`. */
  predicate SectionsClash(a: Subject, b: Subject)
  {
    exists i, j :: 0 <= i < |a.time| && 0 <= j < |b.time| && BlocksClash(a.time[i], b.time[j])
  }

  /** `isConflict`: some chosen section has a block clashing with a block of `newSubject`. */
  predicate IsConflict(selected: seq<Subject>, newSubject: Subject)
  {
    exists k :: 0 <= k < |selected| && SectionsClash(selected[k], newSubject)
  }

  /** The new list after `addSubject`. */
  function AfterAdd(selected: seq<Subject>, subject: Subject): seq<Subject>
  {
    if IsConflict(selected, subject) then selected else selected + [subject]
  }

  /** Whether `s` is kept by `removeSubject(subject)`. */
  predicate KeptOnRemove(s: Subject, subject: Subject)
  {
    !(s.code == subject.code && s.group == subject.group)
  }

  /** The new list after `removeSubject`. */
  function AfterRemove(selected: seq<Subject>, subject: Subject): seq<Subject>
  {
    Filter(selected, (s: Subject) => KeptOnRemove(s, subject))
  }

  /** The hook's invariant: no two chosen sections clash. */
  predicate ClashFree(selected: seq<Subject>)
  {
    Pairwise(selected, (a: Subject, b: Subject) => !SectionsClash(a, b))
  }

  lemma BlocksClashSymmetric(t1: TimeBlock, t2: TimeBlock)
    ensures BlocksClash(t1, t2) <==> BlocksClash(t2, t1)
  {
  }

  /** Clashing is symmetric and needs a block on each side. */
  lemma SectionsClashSpec(a: Subject, b: Subject)
    ensures SectionsClash(a, b) <==> SectionsClash(b, a)
    ensures a.time == [] || b.time == [] ==> !SectionsClash(a, b)
  {
    if SectionsClash(a, b) {
      var i, j :| 0 <= i < |a.time| && 0 <= j < |b.time| && BlocksClash(a.time[i], b.time[j]);
      BlocksClashSymmetric(a.time[i], b.time[j]);
      assert BlocksClash(b.time[j], a.time[i]);
    }
    if SectionsClash(b, a) {
      var j, i :| 0 <= j < |b.time| && 0 <= i < |a.time| && BlocksClash(b.time[j], a.time[i]);
      BlocksClashSymmetric(b.time[j], a.time[i]);
      assert BlocksClash(a.time[i], b.time[j]);
    }
  }

  /** Adding appends exactly when there is no clash and otherwise changes nothing; there is
      no duplicate check, so a section without time blocks is always appended. */
  lemma AfterAddSpec(selected: seq<Subject>, subject: Subject)
    ensures !IsConflict(selected, subject) ==> AfterAdd(selected, subject) == selected + [subject]
    ensures IsConflict(selected, subject) ==> AfterAdd(selected, subject) == selected
    ensures subject.time == [] ==> AfterAdd(selected, subject) == selected + [subject]
  {
    if subject.time == [] {
      forall k | 0 <= k < |selected| ensures !SectionsClash(selected[k], subject) {
        SectionsClashSpec(selected[k], subject);
      }
    }
  }

  /** Clashes are decided on hours alone: the minutes of the new section's blocks do not
      matter. */
  lemma IsConflictIgnoresMinutes(selected: seq<Subject>, subject: Subject, other: Subject)
    requires |other.time| == |subject.time|
    requires forall i :: 0 <= i < |subject.time| ==>
      other.time[i].date == subject.time[i].date && other.time[i].sh == subject.time[i].sh
      && other.time[i].eh == subject.time[i].eh
    ensures IsConflict(selected, subject) <==> IsConflict(selected, other)
  {
    if IsConflict(selected, subject) {
      var k :| 0 <= k < |selected| && SectionsClash(selected[k], subject);
      var i, j :| 0 <= i < |selected[k].time| && 0 <= j < |subject.time| && BlocksClash(selected[k].time[i], subject.time[j]);
      assert BlocksClash(selected[k].time[i], other.time[j]);
    }
    if IsConflict(selected, other) {
      var k :| 0 <= k < |selected| && SectionsClash(selected[k], other);
      var i, j :| 0 <= i < |selected[k].time| && 0 <= j < |other.time| && BlocksClash(selected[k].time[i], other.time[j]);
      assert BlocksClash(selected[k].time[i], subject.time[j]);
    }
  }

  /** Adding keeps the chosen sections clash-free. */
  lemma AddKeepsClashFree(selected: seq<Subject>, subject: Subject)
    requires ClashFree(selected)
    ensures ClashFree(AfterAdd(selected, subject))
  {
    if !IsConflict(selected, subject) {
      var r := selected + [subject];
      forall i, j | 0 <= i < j < |r| ensures !SectionsClash(r[i], r[j]) {
        if j == |selected| {
          assert r[i] == selected[i] && r[j] == subject;
        } else {
          assert r[i] == selected[i] && r[j] == selected[j];
        }
      }
    }
  }

  /** Removing drops exactly the entries with the given code and group, keeps every other
      entry as often as it was there and in order, and keeps the list clash-free. */
  lemma AfterRemoveSpec(selected: seq<Subject>, subject: Subject)
    ensures forall s :: s in AfterRemove(selected, subject) <==>
      s in selected && !(s.code == subject.code && s.group == subject.group)
    ensures IsSubsequence(AfterRemove(selected, subject), selected)
    ensures var r := AfterRemove(selected, subject);
      forall s :: multiset(r)[s] == if KeptOnRemove(s, subject) then multiset(selected)[s] else 0
    ensures ClashFree(selected) ==> ClashFree(AfterRemove(selected, subject))
  {
    FilterMultiplicity(selected, (s: Subject) => KeptOnRemove(s, subject));
    if ClashFree(selected) {
      FilterPairwise(selected, (s: Subject) => KeptOnRemove(s, subject), (a: Subject, b: Subject) => !SectionsClash(a, b));
    }
  }

  /** The hook's state. */
  class TimetableHook {
    var selected: seq<Subject>

    predicate Valid()
      reads this
    {
      ClashFree(selected)
    }

    constructor ()
      ensures selected == [] && Valid()
    {
      selected := [];
    }

    /** `addSubject`: appends the section unless it clashes. */
    method AddSubject(subject: Subject)
      requires Valid()
      modifies this
      ensures Valid()
      ensures selected == AfterAdd(old(selected), subject)
    {
      AddKeepsClashFree(selected, subject);
      if !IsConflict(selected, subject) {
        selected := selected + [subject];
      }
    }

    /** `removeSubject`: drops the entries with the section's code and group. */
    method RemoveSubject(subject: Subject)
      requires Valid()
      modifies this
      ensures Valid()
      ensures selected == AfterRemove(old(selected), subject)
    {
      AfterRemoveSpec(selected, subject);
      selected := Filter(selected, (s: Subject) => KeptOnRemove(s, subject));
    }

    /** `clearAll`. */
    method ClearAll()
      modifies this
      ensures Valid() && selected == []
    {
      selected := [];
    }
  }
}
