/** The employee page's client-side logic: the checks the add-employee form
    runs before it sends a create request, and the search box's filter over
    the fetched employee list. */
module EmployeeForm {
  import opened Text
  import opened Models

  datatype FormData = FormData(employee_id: string, full_name: string, email: string, department: string)

  /** What submitting the form does: show an error, or send the form as typed. */
  datatype SubmitOutcome = Rejected(message: string) | CreateRequested(body: FormData)

  /** `[^\s@]`. */
  predicate EmailChar(c: char) {
    !IsSpace(c) && c != '@'
  }

  /** `[^\s@]+`. */
  predicate EmailRun(s: string) {
    s != [] && forall k :: 0 <= k < |s| ==> EmailChar(s[k])
  }

  /** The address pattern `^[^\s@]+@[^\s@]+\.[^\s@]+$`, read literally: an
      '@' at `i` and a '.' at `j` split the text into three runs. */
  ghost predicate MatchesEmailPattern(s: string) {
    exists i, j :: 0 <= i < j < |s| && s[i] == '@' && s[j] == '.' &&
      EmailRun(s[..i]) && EmailRun(s[i + 1..j]) && EmailRun(s[j + 1..])
  }

  function CountChar(s: string, c: char): nat {
    if s == [] then 0 else (if s[0] == c then 1 else 0) + CountChar(s[1..], c)
  }

  /** The position of the first `c`, `|s|` when there is none. */
  function IndexOf(s: string, c: char): (k: nat)
    ensures k <= |s|
    ensures forall i :: 0 <= i < k ==> s[i] != c
    ensures k < |s| ==> s[k] == c
  {
    if s == [] || s[0] == c then 0 else 1 + IndexOf(s[1..], c)
  }

  /** `c` occurs exactly once exactly when its first occurrence is its last. */
  lemma {:induction false} CountOne(s: string, c: char)
    ensures CountChar(s, c) == 1 <==>
      IndexOf(s, c) < |s| && forall i :: IndexOf(s, c) < i < |s| ==> s[i] != c
  {
    if s != [] {
      CountOne(s[1..], c);
      CountZero(s[1..], c);
      if s[0] != c {
        forall i | 1 <= i < |s| ensures s[i] == s[1..][i - 1] {}
      }
    }
  }

  lemma {:induction false} CountZero(s: string, c: char)
    ensures CountChar(s, c) == 0 <==> forall i :: 0 <= i < |s| ==> s[i] != c
  {
    if s != [] {
      CountZero(s[1..], c);
      assert forall i :: 1 <= i < |s| ==> s[i] == s[1..][i - 1];
    }
  }

  /** The domain has a '.' with text on both sides. */
  predicate HasInnerDot(d: string) {
    exists k :: 0 < k < |d| - 1 && d[k] == '.'
  }

  /** The address check, condition by condition: no whitespace, exactly one
      '@', something before it, and a '.' inside the part after it. */
  predicate EmailAccepted(s: string) {
    && (forall k :: 0 <= k < |s| ==> !IsSpace(s[k]))
    && CountChar(s, '@') == 1
    && 0 < IndexOf(s, '@') < |s|
    && HasInnerDot(s[IndexOf(s, '@') + 1..])
  }

  /** A slice whose every character is an e-mail character, and which is
      not empty, is a run. */
  lemma RunOfSlice(s: string, lo: int, hi: int)
    requires 0 <= lo < hi <= |s|
    requires forall k :: lo <= k < hi ==> EmailChar(s[k])
    ensures EmailRun(s[lo..hi])
  {
    assert forall m :: 0 <= m < hi - lo ==> s[lo..hi][m] == s[lo + m];
  }

  /** Every character of a run is an e-mail character, read back in `s`. */
  lemma SliceOfRun(s: string, lo: int, hi: int)
    requires 0 <= lo <= hi <= |s| && EmailRun(s[lo..hi])
    ensures forall k :: lo <= k < hi ==> EmailChar(s[k])
  {
    assert forall k :: lo <= k < hi ==> s[lo..hi][k - lo] == s[k];
  }

  lemma AcceptedMatchesPattern(s: string)
    requires EmailAccepted(s)
    ensures MatchesEmailPattern(s)
  {
    CountOne(s, '@');
    var i := IndexOf(s, '@');
    var d := s[i + 1..];
    var k :| 0 < k < |d| - 1 && d[k] == '.';
    var j := i + 1 + k;
    assert s[j] == d[k];
    RunOfSlice(s, 0, i);
    assert s[..i] == s[0..i];
    RunOfSlice(s, i + 1, j);
    RunOfSlice(s, j + 1, |s|);
    assert s[j + 1..] == s[j + 1..|s|];
  }

  /** A character found at `i` and nowhere else occurs once, first at `i`. */
  lemma OnlyAt(s: string, c: char, i: int)
    requires 0 <= i < |s| && s[i] == c
    requires forall m :: 0 <= m < |s| && m != i ==> s[m] != c
    ensures IndexOf(s, c) == i && CountChar(s, c) == 1
  {
    CountOne(s, c);
  }

  lemma SplitIsAccepted(s: string, i: int, j: int)
    requires 0 <= i < j < |s| && s[i] == '@' && s[j] == '.'
    requires EmailRun(s[..i]) && EmailRun(s[i + 1..j]) && EmailRun(s[j + 1..])
    ensures EmailAccepted(s)
  {
    assert s[..i] == s[0..i];
    assert s[j + 1..] == s[j + 1..|s|];
    SliceOfRun(s, 0, i);
    SliceOfRun(s, i + 1, j);
    SliceOfRun(s, j + 1, |s|);
    OnlyAt(s, '@', i);
    var d := s[i + 1..];
    assert d[j - i - 1] == '.';
    assert HasInnerDot(d);
  }

  lemma PatternIsAccepted(s: string)
    requires MatchesEmailPattern(s)
    ensures EmailAccepted(s)
  {
    var i, j :| 0 <= i < j < |s| && s[i] == '@' && s[j] == '.' &&
      EmailRun(s[..i]) && EmailRun(s[i + 1..j]) && EmailRun(s[j + 1..]);
    SplitIsAccepted(s, i, j);
  }

  /** The condition-by-condition check accepts exactly what the pattern matches. */
  lemma EmailAcceptedIffPattern(s: string)
    ensures EmailAccepted(s) <==> MatchesEmailPattern(s)
  {
    if EmailAccepted(s) {
      AcceptedMatchesPattern(s);
    }
    if MatchesEmailPattern(s) {
      PatternIsAccepted(s);
    }
  }

  /** `handleSubmit`'s checks: every field non-blank after trimming, then the
      address pattern on the e-mail as typed; only then is the form sent,
      unchanged. */
  function HandleSubmit(form: FormData): (r: SubmitOutcome)
    ensures r.CreateRequested? <==>
      && !IsBlank(form.employee_id) && !IsBlank(form.full_name)
      && !IsBlank(form.email) && !IsBlank(form.department)
      && MatchesEmailPattern(form.email)
    ensures r.CreateRequested? ==> r.body == form
    ensures IsBlank(form.employee_id) || IsBlank(form.full_name) ||
            IsBlank(form.email) || IsBlank(form.department) ==>
      r == Rejected("All fields are required")
    ensures !IsBlank(form.employee_id) && !IsBlank(form.full_name) &&
            !IsBlank(form.email) && !IsBlank(form.department) &&
            !MatchesEmailPattern(form.email) ==>
      r == Rejected("Please enter a valid email address")
    ensures r.Rejected? ==>
      r.message == "All fields are required" || r.message == "Please enter a valid email address"
  {
    StripEmptyIffBlank(form.employee_id);
    StripEmptyIffBlank(form.full_name);
    StripEmptyIffBlank(form.email);
    StripEmptyIffBlank(form.department);
    EmailAcceptedIffPattern(form.email);
    if Strip(form.employee_id) == [] || Strip(form.full_name) == [] ||
       Strip(form.email) == [] || Strip(form.department) == [] then
      Rejected("All fields are required")
    else if !EmailAccepted(form.email) then
      Rejected("Please enter a valid email address")
    else
      CreateRequested(form)
  }

  /** An address that matches the pattern is never blank, so for a form whose
      other fields are filled in the pattern alone decides. */
  lemma PatternDecidesFilledForm(form: FormData)
    requires !IsBlank(form.employee_id) && !IsBlank(form.full_name) && !IsBlank(form.department)
    ensures HandleSubmit(form).CreateRequested? <==> MatchesEmailPattern(form.email)
  {
    if MatchesEmailPattern(form.email) {
      var i, j :| 0 <= i < j < |form.email| && form.email[i] == '@' && form.email[j] == '.' &&
        EmailRun(form.email[..i]) && EmailRun(form.email[i + 1..j]) && EmailRun(form.email[j + 1..]);
      assert !IsSpace(form.email[i]);
    }
  }

  /** The search predicate of `filteredEmployees`: the lower-cased term
      occurs in the lower-cased name, id, department or e-mail. */
  predicate MatchesSearch(e: EmployeeResponse, term: string) {
    var t := Lower(term);
    Includes(Lower(e.full_name), t) || Includes(Lower(e.employee_id), t) ||
    Includes(Lower(e.department), t) || Includes(Lower(e.email), t)
  }

  /** `a` is `b` with some elements left out, the rest in their order. */
  ghost predicate IsSubsequence<T>(a: seq<T>, b: seq<T>)
    decreases |b|
  {
    if a == [] then true
    else if b == [] then false
    else (a[0] == b[0] && IsSubsequence(a[1..], b[1..])) || IsSubsequence(a, b[1..])
  }

  /** `filteredEmployees`: the employees that match the search term, in list order. */
  function FilterEmployees(emps: seq<EmployeeResponse>, term: string): (r: seq<EmployeeResponse>)
    ensures IsSubsequence(r, emps)
    ensures forall e :: e in r <==> e in emps && MatchesSearch(e, term)
  {
    if emps == [] then []
    else
      var rest := FilterEmployees(emps[1..], term);
      assert forall e :: e in emps <==> e == emps[0] || e in emps[1..];
      if MatchesSearch(emps[0], term) then
        assert ([emps[0]] + rest)[1..] == rest;
        [emps[0]] + rest
      else
        SubsequenceOfTail(rest, emps);
        rest
  }

  lemma SubsequenceOfTail<T>(a: seq<T>, b: seq<T>)
    requires b != [] && IsSubsequence(a, b[1..])
    ensures IsSubsequence(a, b)
  {
  }

  /** An empty search keeps every employee, in order. */
  lemma {:induction false} EmptySearchKeepsAll(emps: seq<EmployeeResponse>)
    ensures FilterEmployees(emps, "") == emps
  {
    if emps != [] {
      IncludesEmpty(Lower(emps[0].full_name));
      assert Lower("") == "";
      EmptySearchKeepsAll(emps[1..]);
      assert emps == [emps[0]] + emps[1..];
    }
  }

  /** Lower-casing twice is lower-casing once. */
  lemma LowerIdempotent(s: string)
    ensures Lower(Lower(s)) == Lower(s)
  {
  }

  /** The search ignores the case of the term. */
  lemma SearchIgnoresTermCase(e: EmployeeResponse, term: string)
    ensures MatchesSearch(e, term) <==> MatchesSearch(e, Lower(term))
  {
    LowerIdempotent(term);
  }
}
