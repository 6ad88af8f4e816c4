/** The `useCredits` hook: the total credit of the chosen sections. */
module UseCredits {
  import opened Common
  import opened Catalog

  /** `selected.reduce((total, s) => total + (s.credit ?? 0), 0)`; the credit field is never
      missing here, so the `?? 0` fallback never applies. */
  function Credits(selected: seq<Subject>): real
  {
    SumBy(selected, (s: Subject) => s.credit)
  }

  /** No sections total 0, appending a section adds its credit, and the order of the
      sections does not matter. */
  lemma CreditsSpec(a: seq<Subject>, b: seq<Subject>, x: Subject)
    ensures Credits([]) == 0.0
    ensures Credits(a + [x]) == Credits(a) + x.credit
    ensures Credits(a + b) == Credits(a) + Credits(b)
    ensures multiset(a) == multiset(b) ==> Credits(a) == Credits(b)
  {
    assert (a + [x])[..|a + [x]| - 1] == a;
    SumByAppend(a, b, (s: Subject) => s.credit);
    if multiset(a) == multiset(b) { SumByPermutation(a, b, (s: Subject) => s.credit); }
  }
}
