/**
 * The year resolver: `extract_year_from_job_id`, a `re.search(r"(\d{4})", ...)`
 * over the job identifier with a fixed fallback.
 */
module Year {
  import opened Wrappers
  import opened RegexClasses

  const UnknownYear: string := "unknown_year"

  /** Four digits start at `q`. */
  predicate DigitWindowAt(s: string, q: nat) {
    q + 4 <= |s| && IsDigit(s[q]) && IsDigit(s[q + 1]) && IsDigit(s[q + 2]) && IsDigit(s[q + 3])
  }

  /** `re.search(r"\d{4}", s)` tried from position `p` on: the leftmost window. */
  function SearchFrom(s: string, p: nat): (r: Option<nat>)
    ensures r.Some? ==> p <= r.value && DigitWindowAt(s, r.value)
    ensures r.Some? ==> forall q: nat :: p <= q < r.value ==> !DigitWindowAt(s, q)
    ensures r.None? ==> forall q: nat :: p <= q ==> !DigitWindowAt(s, q)
    decreases |s| - p
  {
    if p + 4 > |s| then None
    else if DigitWindowAt(s, p) then Some(p)
    else SearchFrom(s, p + 1)
  }

  /**
   * `extract_year_from_job_id`: the leftmost four consecutive digits of the
   * job identifier, or "unknown_year" when there are none. Total: it never fails.
   */
  function YearOf(jobId: string): (y: string)
    ensures y == UnknownYear <==> forall q: nat :: !DigitWindowAt(jobId, q)
    ensures forall q: nat :: DigitWindowAt(jobId, q) && (forall q': nat :: q' < q ==> !DigitWindowAt(jobId, q')) ==>
      y == jobId[q..q + 4]
    ensures y == UnknownYear || (|y| == 4 && AllDigits(y))
  {
    match SearchFrom(jobId, 0)
    case Some(k) => jobId[k..k + 4]
    case None => UnknownYear
  }

  lemma YearExamples()
    ensures YearOf("tax-2568-1") == "2568"
    ensures YearOf("12345") == "1234"
    ensures YearOf("nojobyear") == UnknownYear
  {
    assert DigitWindowAt("tax-2568-1", 4);
    assert DigitWindowAt("12345", 0);
  }
}
