/**
 * The two string helpers of `secrets_manager/utils/helpers.py`: truncation of
 * error messages for display, and the rewrite of free text typed into the
 * project search box into a string over the project-id alphabet `[a-z0-9-]`.
 */
module Helpers {
  import opened Wrappers
  import opened Ascii

  // ---------------------------------------------------------------------
  // format_error_message
  // ---------------------------------------------------------------------

  /** The marker appended to a truncated message. */
  const Ellipsis: string := " ..."

  /** Python's `s[:n]` for any integer `n`; a negative `n` counts from the end. */
  function PyPrefix(s: string, n: int): (r: string)
    ensures |r| <= |s| && r == s[..|r|]
    ensures 0 <= n ==> |r| == if n <= |s| then n else |s|
    ensures n < 0 ==> |r| == if -n <= |s| then |s| + n else 0
  {
    if n >= |s| then s
    else if n >= 0 then s[..n]
    else if -n <= |s| then s[..|s| + n]
    else []
  }

  /**
   * `format_error_message(message, max_length)`; `None` stands for Python's
   * `None`. The guard is truthiness, so `None` and `0` leave the message as it
   * is, while a negative bound is truthy and cuts from the end.
   */
  function FormatErrorMessage(message: string, maxLength: Option<int>): (r: string)
    ensures maxLength == None || maxLength == Some(0) ==> r == message
    ensures maxLength.Some? && maxLength.value > 0 && |message| <= maxLength.value ==> r == message
    ensures maxLength.Some? && maxLength.value > 0 && |message| > maxLength.value ==>
      && |r| == maxLength.value + |Ellipsis|
      && r[..maxLength.value] == message[..maxLength.value]
      && r[maxLength.value..] == Ellipsis
    ensures maxLength.Some? && maxLength.value > 0 ==> |r| <= maxLength.value + |Ellipsis|
    ensures maxLength.Some? && maxLength.value < 0 ==>
      r == message[..if -maxLength.value <= |message| then |message| + maxLength.value else 0] + Ellipsis
  {
    if maxLength.Some? && maxLength.value != 0 && |message| > maxLength.value then
      PyPrefix(message, maxLength.value) + Ellipsis
    else
      message
  }

  /** Whatever the bound, the result is the message itself or a prefix of it followed by the marker. */
  lemma FormatErrorMessageShape(message: string, maxLength: Option<int>)
    ensures var r := FormatErrorMessage(message, maxLength);
      r == message ||
      (|r| >= |Ellipsis| && r[|r| - |Ellipsis|..] == Ellipsis &&
       r[..|r| - |Ellipsis|] == message[..|r| - |Ellipsis|] &&
       (|r| - |Ellipsis| < |message| || message == []))
  {
  }

  // ---------------------------------------------------------------------
  // sanitize_project_id_search
  // ---------------------------------------------------------------------

  /** The generator's filter: `c.isalnum() or c in "-_ "`. */
  predicate Kept(c: char) { IsAlnum(c) || c == '-' || c == '_' || c == ' ' }

  /** The generator's map: `c if c.isalnum() or c == "-" else "-"`. */
  function Replacement(c: char): char { if IsAlnum(c) || c == '-' then c else '-' }

  /** `"".join(<map> for c in s if <filter>)`: each character gives at most one. */
  function Translate(s: string): (r: string)
    ensures |r| <= |s|
  {
    if s == [] then []
    else (if Kept(s[0]) then [Replacement(s[0])] else []) + Translate(s[1..])
  }

  /** `"--" in s` */
  predicate HasDoubleHyphen(s: string) {
    exists i :: 0 <= i < |s| - 1 && s[i] == '-' && s[i + 1] == '-'
  }

  /** `s.replace("--", "-")`: replaces non-overlapping occurrences, scanning left to right. */
  function ReplaceDoubleHyphen(s: string): (r: string)
    ensures |r| <= |s|
    ensures |s| > 0 ==> |r| > 0 && r[0] == s[0]
    ensures OverIdAlphabet(s) ==> OverIdAlphabet(r)
  {
    if |s| >= 2 && s[0] == '-' && s[1] == '-' then "-" + ReplaceDoubleHyphen(s[2..])
    else if s == [] then []
    else [s[0]] + ReplaceDoubleHyphen(s[1..])
  }

  /**
   * Reference definition of "collapse every run of hyphens into one":
   * drop each hyphen that is followed by another hyphen.
   */
  function Squeeze(s: string): (r: string)
    ensures |r| <= |s|
    ensures |s| > 0 ==> |r| > 0 && r[0] == s[0]
    ensures OverIdAlphabet(s) ==> OverIdAlphabet(r)
  {
    if |s| <= 1 then s
    else if s[0] == '-' && s[1] == '-' then Squeeze(s[1..])
    else [s[0]] + Squeeze(s[1..])
  }

  /** Lines 29-37: lower-case the term, then filter and map its characters. */
  function Cleaned(searchTerm: string): string {
    Translate(LowerString(searchTerm))
  }

  /** What `sanitize_project_id_search` returns. */
  function Sanitized(searchTerm: string): string {
    Squeeze(Cleaned(searchTerm))
  }

  /**
   * `sanitize_project_id_search`: the two rewriting assignments, then the loop
   * that replaces `--` by `-` until none is left.
   */
  method SanitizeProjectIdSearch(searchTerm: string) returns (sanitized: string)
    ensures sanitized == Sanitized(searchTerm)
    ensures OverIdAlphabet(sanitized) && !HasDoubleHyphen(sanitized)
    ensures |sanitized| <= |searchTerm|
  {
    sanitized := LowerString(searchTerm);
    sanitized := Translate(sanitized);
    ghost var cleaned := sanitized;
    CleanedOverIdAlphabet(searchTerm);
    while HasDoubleHyphen(sanitized)
      invariant Squeeze(sanitized) == Squeeze(cleaned)
      invariant OverIdAlphabet(sanitized)
      invariant |sanitized| <= |searchTerm|
      decreases |sanitized|
    {
      ReplaceShrinks(sanitized);
      SqueezeReplace(sanitized);
      sanitized := ReplaceDoubleHyphen(sanitized);
    }
    SqueezeFixed(sanitized);
  }

  // ----- lemmas about the filter/map stage -----

  lemma {:induction false} TranslateAppend(a: string, b: string)
    ensures Translate(a + b) == Translate(a) + Translate(b)
  {
    if a != [] {
      assert (a + b)[1..] == a[1..] + b;
      TranslateAppend(a[1..], b);
    } else {
      assert a + b == b;
    }
  }

  lemma {:induction false} TranslateOverIdAlphabet(s: string)
    requires forall i :: 0 <= i < |s| ==> !IsUpper(s[i])
    ensures OverIdAlphabet(Translate(s))
  {
    if s != [] {
      TranslateOverIdAlphabet(s[1..]);
    }
  }

  lemma {:induction false} TranslateIdentity(s: string)
    requires OverIdAlphabet(s)
    ensures Translate(s) == s
  {
    if s != [] {
      TranslateIdentity(s[1..]);
    }
  }

  lemma CleanedOverIdAlphabet(s: string)
    ensures OverIdAlphabet(Cleaned(s)) && |Cleaned(s)| <= |s|
  {
    TranslateOverIdAlphabet(LowerString(s));
  }

  /** The first two steps work character by character. */
  lemma CleanedAppend(a: string, b: string)
    ensures Cleaned(a + b) == Cleaned(a) + Cleaned(b)
  {
    assert LowerString(a + b) == LowerString(a) + LowerString(b);
    TranslateAppend(LowerString(a), LowerString(b));
  }

  /**
   * What one character becomes: upper-case letters are lowered, lower-case
   * letters, digits and `-` are kept, `_` and space become `-`, and every
   * other character is dropped.
   */
  lemma CleanedCharRule(c: char)
    ensures IsUpper(c) ==> Cleaned([c]) == [(c as int + 32) as char]
    ensures IsLower(c) || IsDigit(c) || c == '-' ==> Cleaned([c]) == [c]
    ensures c == '_' || c == ' ' ==> Cleaned([c]) == "-"
    ensures !IsAlnum(c) && c != '-' && c != '_' && c != ' ' ==> Cleaned([c]) == []
  {
  }

  /** A term made only of characters that are dropped sanitizes to the empty string. */
  lemma {:induction false} SanitizedDropsSpecials(s: string)
    requires forall i :: 0 <= i < |s| ==> !IsAlnum(s[i]) && s[i] != '-' && s[i] != '_' && s[i] != ' '
    ensures Sanitized(s) == []
  {
    if s != [] {
      assert s == [s[0]] + s[1..];
      CleanedAppend([s[0]], s[1..]);
      CleanedCharRule(s[0]);
      SanitizedDropsSpecials(s[1..]);
    }
  }

  // ----- lemmas about the hyphen-collapsing stage -----

  /** Each `replace` call on a string containing `--` makes it strictly shorter: the loop terminates. */
  lemma {:induction false} ReplaceShrinks(s: string)
    requires HasDoubleHyphen(s)
    ensures |ReplaceDoubleHyphen(s)| < |s|
  {
    if !(s[0] == '-' && s[1] == '-') {
      var i :| 0 <= i < |s| - 1 && s[i] == '-' && s[i + 1] == '-';
      assert i > 0;
      assert s[1..][i - 1] == '-' && s[1..][i] == '-';
      ReplaceShrinks(s[1..]);
    }
  }

  lemma SqueezeCons(c: char, x: string)
    ensures Squeeze([c] + x) ==
      if c == '-' && |x| > 0 && x[0] == '-' then Squeeze(x) else [c] + Squeeze(x)
  {
  }

  /** The result of collapsing never contains `--`. */
  lemma {:induction false} SqueezeNoDoubleHyphen(s: string)
    ensures !HasDoubleHyphen(Squeeze(s))
  {
    if |s| > 1 {
      SqueezeNoDoubleHyphen(s[1..]);
      if !(s[0] == '-' && s[1] == '-') {
        var q := Squeeze(s[1..]);
        var r := [s[0]] + q;
        assert r == Squeeze(s);
        forall i | 0 <= i < |r| - 1
          ensures !(r[i] == '-' && r[i + 1] == '-')
        {
          if i > 0 {
            assert r[i] == q[i - 1] && r[i + 1] == q[i];
          }
        }
      }
    }
  }

  /** A string without `--` is left as it is by collapsing. */
  lemma {:induction false} SqueezeFixed(s: string)
    requires !HasDoubleHyphen(s)
    ensures Squeeze(s) == s
  {
    if |s| > 1 {
      SqueezeFixed(s[1..]);
      assert !(s[0] == '-' && s[1] == '-');
      assert s == [s[0]] + s[1..];
    }
  }

  /** One `replace("--", "-")` call does not change what collapsing yields: the loop invariant. */
  lemma {:induction false} SqueezeReplace(s: string)
    ensures Squeeze(ReplaceDoubleHyphen(s)) == Squeeze(s)
  {
    if |s| >= 2 && s[0] == '-' && s[1] == '-' {
      var t := s[2..];
      SqueezeReplace(t);
      assert s[1..] == ['-'] + t;
      SqueezeCons('-', t);
      SqueezeCons('-', ReplaceDoubleHyphen(t));
      assert ReplaceDoubleHyphen(s) == ['-'] + ReplaceDoubleHyphen(t);
    } else if s != [] {
      var t := s[1..];
      SqueezeReplace(t);
      assert s == [s[0]] + t;
      SqueezeCons(s[0], t);
      SqueezeCons(s[0], ReplaceDoubleHyphen(t));
    }
  }

  // ----- properties of the whole function -----

  /** The output is over `[a-z0-9-]`, contains no `--` and is no longer than the input. */
  lemma SanitizedShape(s: string)
    ensures OverIdAlphabet(Sanitized(s))
    ensures !HasDoubleHyphen(Sanitized(s))
    ensures |Sanitized(s)| <= |s|
  {
    CleanedOverIdAlphabet(s);
    SqueezeNoDoubleHyphen(Cleaned(s));
  }

  /** A term is returned unchanged exactly when it is over `[a-z0-9-]` and has no `--`. */
  lemma SanitizedFixedPoint(s: string)
    ensures Sanitized(s) == s <==> OverIdAlphabet(s) && !HasDoubleHyphen(s)
  {
    SanitizedShape(s);
    if OverIdAlphabet(s) && !HasDoubleHyphen(s) {
      assert LowerString(s) == s;
      TranslateIdentity(s);
      SqueezeFixed(s);
    }
  }

  /** Sanitizing twice is sanitizing once, so writing the result back into the input is stable. */
  lemma SanitizedIdempotent(s: string)
    ensures Sanitized(Sanitized(s)) == Sanitized(s)
  {
    SanitizedShape(s);
    SanitizedFixedPoint(Sanitized(s));
  }

  // ----- cases from the unit tests -----

  lemma SanitizedHyphensOnly()
    ensures Sanitized("---") == "-"
  {
  }

  lemma SanitizedSpecialsOnly()
    ensures Sanitized("!@#$%") == ""
  {
  }

  lemma SanitizedSingleSpace()
    ensures Sanitized(" ") == "-"
  {
  }

  lemma SanitizedValidUnchanged()
    ensures Sanitized("test-123-xyz") == "test-123-xyz"
  {
    var s := "test-123-xyz";
    assert forall i :: 0 <= i < |s| ==> IsIdChar(s[i]);
    assert forall i :: 0 <= i < |s| - 1 ==> !(s[i] == '-' && s[i + 1] == '-');
    SanitizedFixedPoint(s);
  }
}
