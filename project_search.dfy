/**
 * How the search sanitizer of `helpers.py` and the `project_id` pattern of
 * `gcp_projects.py` fit together; the app writes the sanitized text back into
 * the search box, so a term it leaves alone is never rewritten under the user.
 */
module ProjectSearch {
  import opened Ascii
  import opened Helpers
  import opened GcpProjects

  /** Every valid project id without `--` survives sanitizing unchanged. */
  lemma ValidProjectIdSurvivesSanitizing(id: string)
    requires MatchesProjectIdPattern(id) && !HasDoubleHyphen(id)
    ensures Sanitized(id) == id
  {
    ProjectIdPatternIff(id);
    assert OverIdAlphabet(id);
    SanitizedFixedPoint(id);
  }

  /** A valid project id that holds `--` is not a fixed point: its search term loses a hyphen. */
  lemma DoubleHyphenProjectIdIsRewritten()
    ensures MatchesProjectIdPattern("ab--cd")
    ensures Sanitized("ab--cd") != "ab--cd"
  {
  }
}
