/**
 * The field constraints of the `GCPProject` model in
 * `secrets_manager/models/gcp_projects.py`: the `project_id` pattern, the
 * `display_name` length bounds, the `validate_labels` validator and the
 * text of `__str__`.
 */
module GcpProjects {
  import opened Wrappers
  import opened Ascii

  /** A validated project: the fields of `GCPProject`, labels in dict order. */
  datatype GcpProject = GcpProject(
    name: string,
    parent: Option<string>,
    projectId: string,
    displayName: string,
    labels: seq<(string, string)>)

  // ---------------------------------------------------------------------
  // project_id: pattern ^[a-z][a-z0-9-]{5,29}$
  // ---------------------------------------------------------------------

  /** Matching `[a-z0-9-]{lo,hi}` against the whole of `t`, one character at a time. */
  function MatchIdCharRepeat(t: string, lo: nat, hi: nat): (b: bool)
    ensures b ==> lo <= |t| <= hi
    decreases |t|
  {
    if t == [] then lo == 0
    else hi > 0 && IsIdChar(t[0]) && MatchIdCharRepeat(t[1..], if lo > 0 then lo - 1 else 0, hi - 1)
  }

  /** The pattern of `project_id`: a lower-case letter, then 5 to 29 characters of `[a-z0-9-]`. */
  predicate MatchesProjectIdPattern(s: string)
    ensures MatchesProjectIdPattern(s) ==> 6 <= |s| <= 30 && IsLower(s[0])
  {
    |s| > 0 && IsLower(s[0]) && MatchIdCharRepeat(s[1..], 5, 29)
  }

  lemma {:induction false} MatchIdCharRepeatIff(t: string, lo: nat, hi: nat)
    ensures MatchIdCharRepeat(t, lo, hi) <==> lo <= |t| <= hi && OverIdAlphabet(t)
    decreases |t|
  {
    if t != [] {
      MatchIdCharRepeatIff(t[1..], if lo > 0 then lo - 1 else 0, if hi > 0 then hi - 1 else 0);
      if OverIdAlphabet(t[1..]) && IsIdChar(t[0]) {
        assert OverIdAlphabet(t);
      }
    }
  }

  /** A project id matches exactly when it has 6 to 30 characters, a lower-case letter first and `[a-z0-9-]` after. */
  lemma ProjectIdPatternIff(s: string)
    ensures MatchesProjectIdPattern(s) <==>
      6 <= |s| <= 30 && IsLower(s[0]) && forall i :: 1 <= i < |s| ==> IsIdChar(s[i])
  {
    if |s| > 0 {
      MatchIdCharRepeatIff(s[1..], 5, 29);
      if OverIdAlphabet(s[1..]) {
        forall i | 1 <= i < |s| ensures IsIdChar(s[i]) {
          assert s[1..][i - 1] == s[i];
        }
      }
    }
  }

  /** The comment beside the pattern says "no trailing hyphen", but the pattern accepts one. */
  lemma ProjectIdTrailingHyphenAccepted()
    ensures MatchesProjectIdPattern("valid-")
  {
  }

  /** An id must start with a letter. */
  lemma ProjectIdLeadingDigitRejected()
    ensures !MatchesProjectIdPattern("123invalid")
  {
  }

  // ---------------------------------------------------------------------
  // display_name: 4 to 30 characters
  // ---------------------------------------------------------------------

  const DisplayNameMinLength := 4
  const DisplayNameMaxLength := 30

  // ---------------------------------------------------------------------
  // validate_labels
  // ---------------------------------------------------------------------

  const MaxLabelTextLength := 63
  const MaxLabels := 64

  /** The exception `validate_labels` raises; each names the offending text. */
  datatype LabelError =
    | InvalidKeyFormat(key: string)
    | KeyTooLong(key: string)
    | InvalidValueFormat(value: string)
    | ValueTooLong(value: string)
    | TooManyLabels

  /**
   * The format test as the validator writes it:
   * `not t.isalnum() and not all(c in "-_" for c in t if not c.isalnum())`.
   */
  predicate FormatRejected(t: string) {
    !IsAlnumString(t) && !(forall i :: 0 <= i < |t| && !IsAlnum(t[i]) ==> t[i] == '-' || t[i] == '_')
  }

  predicate IsLabelChar(c: char) { IsAlnum(c) || c == '-' || c == '_' }

  /** A key or value that passes both checks: at most 63 characters of `[A-Za-z0-9_-]`. */
  predicate IsLabelText(t: string) {
    |t| <= MaxLabelTextLength && forall i :: 0 <= i < |t| ==> IsLabelChar(t[i])
  }

  /** The format test rejects exactly the texts holding a character outside `[A-Za-z0-9_-]`; so `""` passes. */
  lemma FormatRejectedIff(t: string)
    ensures FormatRejected(t) <==> exists i :: 0 <= i < |t| && !IsLabelChar(t[i])
  {
  }

  /** The checks of one entry, in the order the loop body makes them. */
  function EntryError(key: string, value: string): (r: Option<LabelError>)
    ensures r == None <==> IsLabelText(key) && IsLabelText(value)
    ensures r.Some? ==> r.value != TooManyLabels
    ensures (exists i :: 0 <= i < |key| && !IsLabelChar(key[i])) ==> r == Some(InvalidKeyFormat(key))
    ensures (forall i :: 0 <= i < |key| ==> IsLabelChar(key[i])) && |key| > MaxLabelTextLength ==>
      r == Some(KeyTooLong(key))
    ensures IsLabelText(key) && (exists i :: 0 <= i < |value| && !IsLabelChar(value[i])) ==>
      r == Some(InvalidValueFormat(value))
    ensures IsLabelText(key) && (forall i :: 0 <= i < |value| ==> IsLabelChar(value[i])) && |value| > MaxLabelTextLength ==>
      r == Some(ValueTooLong(value))
  {
    FormatRejectedIff(key);
    FormatRejectedIff(value);
    if FormatRejected(key) then Some(InvalidKeyFormat(key))
    else if |key| > MaxLabelTextLength then Some(KeyTooLong(key))
    else if FormatRejected(value) then Some(InvalidValueFormat(value))
    else if |value| > MaxLabelTextLength then Some(ValueTooLong(value))
    else None
  }

  /** The error of the first entry that fails, if any. */
  function FirstEntryError(labels: seq<(string, string)>): Option<LabelError> {
    if labels == [] then None
    else
      match EntryError(labels[0].0, labels[0].1)
      case Some(e) => Some(e)
      case None => FirstEntryError(labels[1..])
  }

  /** What `validate_labels` returns or raises. */
  function CheckLabels(labels: seq<(string, string)>): (r: Result<seq<(string, string)>, LabelError>)
    ensures r.Success? ==> r.value == labels && |labels| <= MaxLabels
  {
    match FirstEntryError(labels)
    case Some(e) => Failure(e)
    case None => if |labels| > MaxLabels then Failure(TooManyLabels) else Success(labels)
  }

  /** `validate_labels`: the loop over the entries with its early raises, then the count check. */
  method ValidateLabels(labels: seq<(string, string)>) returns (r: Result<seq<(string, string)>, LabelError>)
    ensures r == CheckLabels(labels)
  {
    for i := 0 to |labels|
      invariant FirstEntryError(labels) == FirstEntryError(labels[i..])
    {
      assert labels[i..][1..] == labels[i + 1..];
      var (key, value) := labels[i];
      if FormatRejected(key) {
        return Failure(InvalidKeyFormat(key));
      }
      if |key| > MaxLabelTextLength {
        return Failure(KeyTooLong(key));
      }
      if FormatRejected(value) {
        return Failure(InvalidValueFormat(value));
      }
      if |value| > MaxLabelTextLength {
        return Failure(ValueTooLong(value));
      }
    }
    if |labels| > MaxLabels {
      return Failure(TooManyLabels);
    }
    return Success(labels);
  }

  lemma {:induction false} FirstEntryErrorSpec(labels: seq<(string, string)>)
    ensures FirstEntryError(labels) == None <==>
      forall i :: 0 <= i < |labels| ==> EntryError(labels[i].0, labels[i].1) == None
    ensures FirstEntryError(labels).Some? ==>
      exists i :: 0 <= i < |labels| && EntryError(labels[i].0, labels[i].1) == FirstEntryError(labels) &&
        forall j :: 0 <= j < i ==> EntryError(labels[j].0, labels[j].1) == None
  {
    if labels != [] {
      FirstEntryErrorSpec(labels[1..]);
      if EntryError(labels[0].0, labels[0].1) == None && FirstEntryError(labels[1..]).Some? {
        var i :| 0 <= i < |labels[1..]| && EntryError(labels[1..][i].0, labels[1..][i].1) == FirstEntryError(labels[1..]) &&
          forall j :: 0 <= j < i ==> EntryError(labels[1..][j].0, labels[1..][j].1) == None;
        assert forall j :: 0 < j <= i ==> labels[j] == labels[1..][j - 1];
        assert EntryError(labels[i + 1].0, labels[i + 1].1) == FirstEntryError(labels);
      }
    }
  }

  /**
   * Labels are accepted exactly when every key and value has at most 63
   * characters of `[A-Za-z0-9_-]` and there are at most 64 of them; accepted
   * labels come back unchanged.
   */
  lemma CheckLabelsAccepts(labels: seq<(string, string)>)
    ensures CheckLabels(labels).Success? <==>
      (forall i :: 0 <= i < |labels| ==> IsLabelText(labels[i].0) && IsLabelText(labels[i].1)) &&
      |labels| <= MaxLabels
    ensures CheckLabels(labels).Success? ==> CheckLabels(labels).value == labels
  {
    FirstEntryErrorSpec(labels);
  }

  /**
   * Entries are checked in order: an entry error is that of the first entry
   * that fails, and "too many labels" is raised only when every entry passes.
   */
  lemma CheckLabelsFirstError(labels: seq<(string, string)>)
    ensures CheckLabels(labels) == Failure(TooManyLabels) <==>
      (forall i :: 0 <= i < |labels| ==> IsLabelText(labels[i].0) && IsLabelText(labels[i].1)) &&
      |labels| > MaxLabels
    ensures CheckLabels(labels).Failure? && CheckLabels(labels).error != TooManyLabels ==>
      exists i :: 0 <= i < |labels| && EntryError(labels[i].0, labels[i].1) == Some(CheckLabels(labels).error) &&
        forall j :: 0 <= j < i ==> IsLabelText(labels[j].0) && IsLabelText(labels[j].1)
  {
    FirstEntryErrorSpec(labels);
  }

  /** A key over 63 characters, or with a character outside `[A-Za-z0-9_-]`, is rejected. */
  lemma CheckLabelsRejectsBadKey(labels: seq<(string, string)>, k: nat)
    requires k < |labels| && !IsLabelText(labels[k].0)
    ensures CheckLabels(labels).Failure?
  {
    CheckLabelsAccepts(labels);
  }

  // ---------------------------------------------------------------------
  // Construction and __str__
  // ---------------------------------------------------------------------

  /** A field that fails validation. */
  datatype FieldError =
    | ProjectIdPatternMismatch(projectId: string)
    | DisplayNameTooShort(displayName: string)
    | DisplayNameTooLong(displayName: string)
    | LabelsRejected(error: LabelError)

  /**
   * Constructing a `GCPProject`: every field is validated and the failures
   * are reported together, in field order.
   */
  function NewProject(
    name: string, parent: Option<string>, projectId: string, displayName: string,
    labels: seq<(string, string)>): (r: Result<GcpProject, seq<FieldError>>)
    ensures r.Success? <==>
      MatchesProjectIdPattern(projectId) &&
      DisplayNameMinLength <= |displayName| <= DisplayNameMaxLength &&
      CheckLabels(labels).Success?
    ensures r.Success? ==> r.value == GcpProject(name, parent, projectId, displayName, labels)
    ensures r.Failure? ==> |r.error| > 0
    ensures !MatchesProjectIdPattern(projectId) ==> r.Failure? && r.error[0] == ProjectIdPatternMismatch(projectId)
    ensures |displayName| < DisplayNameMinLength ==> r.Failure? && DisplayNameTooShort(displayName) in r.error
  {
    var idErrors := if MatchesProjectIdPattern(projectId) then [] else [ProjectIdPatternMismatch(projectId)];
    var nameErrors :=
      if |displayName| < DisplayNameMinLength then [DisplayNameTooShort(displayName)]
      else if |displayName| > DisplayNameMaxLength then [DisplayNameTooLong(displayName)]
      else [];
    var labelErrors := match CheckLabels(labels) case Failure(e) => [LabelsRejected(e)] case Success(_) => [];
    var errors := idErrors + nameErrors + labelErrors;
    if errors == [] then Success(GcpProject(name, parent, projectId, displayName, labels))
    else Failure(errors)
  }

  predicate IsSubstring(part: string, whole: string) {
    exists i :: 0 <= i <= |whole| && part <= whole[i..]
  }

  /** `__str__` */
  function Describe(p: GcpProject): (r: string)
    ensures |r| == |"GCPProject(display_name=, name=, project_id=)"| + |p.displayName| + |p.name| + |p.projectId|
    ensures "GCPProject(display_name=" <= r && r[|r| - 1] == ')'
  {
    "GCPProject(display_name=" + p.displayName + ", name=" + p.name + ", project_id=" + p.projectId + ")"
  }

  /** The text names the display name, the resource name and the project id. */
  lemma DescribeMentionsFields(p: GcpProject)
    ensures IsSubstring(p.displayName, Describe(p))
    ensures IsSubstring(p.name, Describe(p))
    ensures IsSubstring(p.projectId, Describe(p))
  {
    var r := Describe(p);
    var a := |"GCPProject(display_name="|;
    var b := a + |p.displayName| + |", name="|;
    var c := b + |p.name| + |", project_id="|;
    assert p.displayName <= r[a..];
    assert p.name <= r[b..];
    assert p.projectId <= r[c..];
  }
}
