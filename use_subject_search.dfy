/** The `useSubjectSearch` hook: the catalogue sections matching a query, a type filter and
    a department filter. */
module UseSubjectSearch {
  import opened Common
  import opened Text
  import opened Catalog

  /** The query occurs, with case, in the title or the code; the empty type filter and the
      absent department filter accept everything. */
  predicate Matches(s: Subject, query: string, typeFilter: string, deptFilter: Option<int>)
  {
    (Contains(s.title, query) || Contains(s.code, query))
    && (typeFilter == "" || s.kind == typeFilter)
    && (deptFilter.None? || s.dept == deptFilter)
  }

  /** `filtered`. */
  function Filtered(subjects: seq<Subject>, query: string, typeFilter: string, deptFilter: Option<int>): seq<Subject>
  {
    Filter(subjects, (s: Subject) => Matches(s, query, typeFilter, deptFilter))
  }

  /** The result is exactly the matching sections, each as often as it is listed, in their
      original order. */
  lemma FilteredSpec(subjects: seq<Subject>, query: string, typeFilter: string, deptFilter: Option<int>)
    ensures IsSubsequence(Filtered(subjects, query, typeFilter, deptFilter), subjects)
    ensures forall s :: s in Filtered(subjects, query, typeFilter, deptFilter) <==>
      s in subjects && Matches(s, query, typeFilter, deptFilter)
    ensures var r := Filtered(subjects, query, typeFilter, deptFilter);
      forall s :: multiset(r)[s] == if Matches(s, query, typeFilter, deptFilter) then multiset(subjects)[s] else 0
  {
    FilterMultiplicity(subjects, (s: Subject) => Matches(s, query, typeFilter, deptFilter));
  }

  /** Without a query and without filters every section is listed. */
  lemma NoFilterKeepsAll(subjects: seq<Subject>)
    ensures Filtered(subjects, "", "", None) == subjects
  {
    forall k | 0 <= k < |subjects| ensures Matches(subjects[k], "", "", None) {
      ContainsEmpty(subjects[k].title);
    }
    FilterAll(subjects, (s: Subject) => Matches(s, "", "", None));
  }

  /** The query is matched with case: a title differing only in case does not match. */
  lemma QueryIsCaseSensitive()
    ensures !Matches(Subject(None, "", "X", "abc", None, [], [], 3.0), "ABC", "", None)
  {
    var title := "abc";
    forall i | 0 <= i <= |title| - 3 ensures !OccursAt(title, "ABC", i) {
      assert title[0] != "ABC"[0];
    }
  }
}
