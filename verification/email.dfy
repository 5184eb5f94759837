/**
 The `Email` value type: a string address accepted only when the whole string
 matches the fixed pattern

   ^[a-zA-Z0-9._%+-]+(?:\.[a-zA-Z0-9._%+-]+)*@(?:[a-zA-Z0-9.-]+\.)+[a-zA-Z]{2,7}$

 The pattern is written out below as one predicate per sub-expression
 (`MatchesPattern`), next to a direct, executable characterisation
 (`WellFormed`) that the constructor evaluates.  The two are proved to accept
 exactly the same strings.  All character classes are ASCII only.
 */
module Emails {
  import opened Wrappers

  // ---------------------------------------------------------------------------
  // Character classes
  // ---------------------------------------------------------------------------

  predicate IsAsciiLetter(c: char) {
    'a' <= c <= 'z' || 'A' <= c <= 'Z'
  }

  predicate IsAsciiDigit(c: char) {
    '0' <= c <= '9'
  }

  /** `[a-zA-Z0-9._%+-]` */
  predicate IsLocalChar(c: char) {
    IsAsciiLetter(c) || IsAsciiDigit(c) || c == '.' || c == '_' || c == '%' || c == '+' || c == '-'
  }

  /** `[a-zA-Z0-9.-]` */
  predicate IsDomainChar(c: char) {
    IsAsciiLetter(c) || IsAsciiDigit(c) || c == '.' || c == '-'
  }

  predicate AllLocal(s: string) {
    forall i :: 0 <= i < |s| ==> IsLocalChar(s[i])
  }

  predicate AllDomain(s: string) {
    forall i :: 0 <= i < |s| ==> IsDomainChar(s[i])
  }

  predicate AllLetters(s: string) {
    forall i :: 0 <= i < |s| ==> IsAsciiLetter(s[i])
  }

  // ---------------------------------------------------------------------------
  // The pattern, sub-expression by sub-expression
  // ---------------------------------------------------------------------------

  /** `[a-zA-Z0-9._%+-]+` */
  predicate LocalRun(s: string) {
    |s| >= 1 && AllLocal(s)
  }

  /** `(?:\.[a-zA-Z0-9._%+-]+)*` */
  ghost predicate DotGroups(s: string)
    decreases |s|
  {
    s == [] ||
    (s[0] == '.' && exists k :: 2 <= k <= |s| && LocalRun(s[1..k]) && DotGroups(s[k..]))
  }

  /** `[a-zA-Z0-9._%+-]+(?:\.[a-zA-Z0-9._%+-]+)*`: the part before the `@` */
  ghost predicate LocalPart(s: string) {
    exists k :: 1 <= k <= |s| && LocalRun(s[..k]) && DotGroups(s[k..])
  }

  /** `[a-zA-Z0-9.-]+` */
  predicate DomainRun(s: string) {
    |s| >= 1 && AllDomain(s)
  }

  /** `(?:[a-zA-Z0-9.-]+\.)+` */
  ghost predicate DomainGroups(s: string)
    decreases |s|
  {
    exists k :: 1 <= k < |s| && DomainRun(s[..k]) && s[k] == '.' && (k + 1 == |s| || DomainGroups(s[k + 1..]))
  }

  /** `[a-zA-Z]{2,7}` */
  predicate TopLevelDomain(s: string) {
    2 <= |s| <= 7 && AllLetters(s)
  }

  /** `(?:[a-zA-Z0-9.-]+\.)+[a-zA-Z]{2,7}`: the part after the `@` */
  ghost predicate DomainPart(s: string) {
    exists k :: 0 <= k <= |s| && DomainGroups(s[..k]) && TopLevelDomain(s[k..])
  }

  /** The whole string matches the anchored pattern. */
  ghost predicate MatchesPattern(s: string) {
    exists i :: 0 <= i < |s| && s[i] == '@' && LocalPart(s[..i]) && DomainPart(s[i + 1..])
  }

  // ---------------------------------------------------------------------------
  // Searching a string
  // ---------------------------------------------------------------------------

  /** The position of the first occurrence of `c` in `s`. */
  function IndexOf(s: string, c: char): (r: Option<nat>)
    ensures r.Some? ==> r.value < |s| && s[r.value] == c && c !in s[..r.value]
    ensures r.None? ==> c !in s
  {
    if |s| == 0 then None
    else if s[0] == c then Some(0)
    else match IndexOf(s[1..], c)
      case None => None
      case Some(i) => Some(i + 1)
  }

  /** The position of the last occurrence of `c` in `s`. */
  function LastIndexOf(s: string, c: char): (r: Option<nat>)
    ensures r.Some? ==> r.value < |s| && s[r.value] == c && c !in s[r.value + 1..]
    ensures r.None? ==> c !in s
  {
    if |s| == 0 then None
    else if s[|s| - 1] == c then Some(|s| - 1)
    else LastIndexOf(s[..|s| - 1], c)
  }

  /** A first occurrence found some other way is the one `IndexOf` reports. */
  lemma IndexOfUnique(s: string, c: char, i: nat)
    requires i < |s| && s[i] == c && c !in s[..i]
    ensures IndexOf(s, c) == Some(i)
  {
  }

  /** A last occurrence found some other way is the one `LastIndexOf` reports. */
  lemma LastIndexOfUnique(s: string, c: char, j: nat)
    requires j < |s| && s[j] == c && c !in s[j + 1..]
    ensures LastIndexOf(s, c) == Some(j)
  {
  }

  // ---------------------------------------------------------------------------
  // A direct characterisation of the accepted language
  // ---------------------------------------------------------------------------

  /**
   The part after the `@` is over `[a-zA-Z0-9.-]`, has a `.` that is not its
   first character, and the text after its last `.` is 2 to 7 ASCII letters.
   */
  predicate WellFormedDomain(d: string) {
    AllDomain(d) &&
    match LastIndexOf(d, '.')
    case None => false
    case Some(j) => 1 <= j && TopLevelDomain(d[j + 1..])
  }

  /**
   The text before the first `@` is a non-empty run of local characters and
   the text after it is a well-formed domain (which contains no `@`).
   */
  predicate WellFormed(s: string) {
    match IndexOf(s, '@')
    case None => false
    case Some(i) => LocalRun(s[..i]) && WellFormedDomain(s[i + 1..])
  }

  /** Dot-separated groups of local characters are themselves local characters. */
  lemma {:induction false} DotGroupsAreLocal(s: string)
    requires DotGroups(s)
    ensures AllLocal(s)
    decreases |s|
  {
    if s != [] {
      var k :| 2 <= k <= |s| && LocalRun(s[1..k]) && DotGroups(s[k..]);
      DotGroupsAreLocal(s[k..]);
      forall i | 0 <= i < |s|
        ensures IsLocalChar(s[i])
      {
        if i == 0 {
        } else if i < k {
          assert s[i] == s[1..k][i - 1];
        } else {
          assert s[i] == s[k..][i - k];
        }
      }
    }
  }

  /** The local part of the pattern is just a non-empty run of local characters. */
  lemma LocalPartIff(s: string)
    ensures LocalPart(s) <==> LocalRun(s)
  {
    if LocalPart(s) {
      var k :| 1 <= k <= |s| && LocalRun(s[..k]) && DotGroups(s[k..]);
      DotGroupsAreLocal(s[k..]);
      forall i | 0 <= i < |s|
        ensures IsLocalChar(s[i])
      {
        if i < k {
          assert s[i] == s[..k][i];
        } else {
          assert s[i] == s[k..][i - k];
        }
      }
    }
    if LocalRun(s) {
      assert s[..|s|] == s;
      assert s[|s|..] == [];
      assert DotGroups(s[|s|..]);
    }
  }

  /** The repeated `label.` groups are exactly the domain strings of length at least two ending in `.`. */
  lemma {:induction false} DomainGroupsIff(s: string)
    ensures DomainGroups(s) <==> |s| >= 2 && AllDomain(s) && s[|s| - 1] == '.'
    decreases |s|
  {
    if DomainGroups(s) {
      var k :| 1 <= k < |s| && DomainRun(s[..k]) && s[k] == '.' && (k + 1 == |s| || DomainGroups(s[k + 1..]));
      if k + 1 < |s| {
        DomainGroupsIff(s[k + 1..]);
        assert s[|s| - 1] == s[k + 1..][|s| - k - 2];
      }
      forall i | 0 <= i < |s|
        ensures IsDomainChar(s[i])
      {
        if i < k {
          assert s[i] == s[..k][i];
        } else if k < i {
          assert s[i] == s[k + 1..][i - k - 1];
        }
      }
    }
    if |s| >= 2 && AllDomain(s) && s[|s| - 1] == '.' {
      var k := |s| - 1;
      assert DomainRun(s[..k]);
    }
  }

  /** The domain part of the pattern is exactly a well-formed domain. */
  lemma DomainPartIff(d: string)
    ensures DomainPart(d) <==> WellFormedDomain(d)
  {
    if DomainPart(d) {
      var k :| 0 <= k <= |d| && DomainGroups(d[..k]) && TopLevelDomain(d[k..]);
      DomainGroupsIff(d[..k]);
      assert d[k - 1] == d[..k][k - 1];
      assert '.' !in d[k..] by {
        forall i | 0 <= i < |d[k..]|
          ensures d[k..][i] != '.'
        {
          assert IsAsciiLetter(d[k..][i]);
        }
      }
      assert d[k - 1 + 1..] == d[k..];
      LastIndexOfUnique(d, '.', k - 1);
      forall i | 0 <= i < |d|
        ensures IsDomainChar(d[i])
      {
        if i < k {
          assert d[i] == d[..k][i];
        } else {
          assert d[i] == d[k..][i - k];
        }
      }
    }
    if WellFormedDomain(d) {
      var j := LastIndexOf(d, '.').value;
      var k := j + 1;
      assert d[..k][k - 1] == '.';
      DomainGroupsIff(d[..k]);
    }
  }

  /** The pattern and the direct characterisation accept the same strings. */
  lemma PatternIff(s: string)
    ensures MatchesPattern(s) <==> WellFormed(s)
  {
    if MatchesPattern(s) {
      var i :| 0 <= i < |s| && s[i] == '@' && LocalPart(s[..i]) && DomainPart(s[i + 1..]);
      LocalPartIff(s[..i]);
      DomainPartIff(s[i + 1..]);
      assert '@' !in s[..i] by {
        forall j | 0 <= j < i
          ensures s[..i][j] != '@'
        {
          assert IsLocalChar(s[..i][j]);
        }
      }
      IndexOfUnique(s, '@', i);
    }
    if WellFormed(s) {
      var i := IndexOf(s, '@').value;
      LocalPartIff(s[..i]);
      DomainPartIff(s[i + 1..]);
    }
  }

  /** A well-formed string, shown from the positions of its `@` and of its domain's last `.`. */
  lemma WellFormedIntro(s: string, i: nat, j: nat)
    requires i < |s| && s[i] == '@' && '@' !in s[..i] && LocalRun(s[..i])
    requires i + 1 + j < |s| && s[i + 1 + j] == '.' && '.' !in s[i + 1 + j + 1..]
    requires 1 <= j && AllDomain(s[i + 1..]) && TopLevelDomain(s[i + 1 + j + 1..])
    ensures WellFormed(s)
  {
    IndexOfUnique(s, '@', i);
    var d := s[i + 1..];
    assert d[j] == '.';
    assert d[j + 1..] == s[i + 1 + j + 1..];
    LastIndexOfUnique(d, '.', j);
  }

  /** The address the repository's equality test builds. */
  const SampleAddress: string := "kskyung0624@gmail.com"

  lemma SampleWellFormed()
    ensures WellFormed(SampleAddress)
  {
    var s := SampleAddress;
    assert s[12..] == "gmail.com";
    assert s[18..] == "com";
    WellFormedIntro(s, 11, 5);
  }

  // ---------------------------------------------------------------------------
  // The value type and its validating constructor
  // ---------------------------------------------------------------------------

  /** The record underlying `Email`: one address string, compared by value. */
  datatype EmailRecord = EmailRecord(address: string)

  /** An email address that passed validation; no other values exist. */
  type Email = e: EmailRecord | WellFormed(e.address) witness SampleRecord()

  /** The record of the sample address, which is well formed. */
  function SampleRecord(): (e: EmailRecord)
    ensures WellFormed(e.address)
  {
    SampleWellFormed();
    EmailRecord(SampleAddress)
  }

  /** The constructor's `IllegalArgumentException`, carrying the rejected address. */
  datatype EmailError = InvalidFormat(address: string)

  /**
   Builds an `Email`: succeeds exactly when the whole address matches the
   pattern, keeps the address verbatim, and otherwise fails.
   */
  function Of(address: string): (r: Result<Email, EmailError>)
    ensures r.Success? <==> MatchesPattern(address)
    ensures r.Success? ==> r.value.address == address
    ensures r.Failure? ==> r.error == InvalidFormat(address)
  {
    PatternIff(address);
    if WellFormed(address) then Success(EmailRecord(address)) else Failure(InvalidFormat(address))
  }

  // ---------------------------------------------------------------------------
  // Consequences of the pattern
  // ---------------------------------------------------------------------------

  /** Two emails built from strings are equal exactly when the strings are. */
  lemma OfEquality(s: string, t: string)
    requires Of(s).Success? && Of(t).Success?
    ensures Of(s).value == Of(t).value <==> s == t
  {
  }

  /** In a well-formed string the only `@` is the first one. */
  lemma WellFormedHasOneAt(s: string)
    requires WellFormed(s)
    ensures multiset(s)['@'] == 1
  {
    var i := IndexOf(s, '@').value;
    var d := s[i + 1..];
    assert '@' !in d by {
      forall j | 0 <= j < |d|
        ensures d[j] != '@'
      {
        assert IsDomainChar(d[j]);
      }
    }
    assert s == s[..i] + [s[i]] + d;
    assert multiset(s) == multiset(s[..i]) + multiset([s[i]]) + multiset(d);
  }

  /** Every accepted address has exactly one `@`, and something before it. */
  lemma AcceptedHasOneAt(s: string)
    requires MatchesPattern(s)
    ensures multiset(s)['@'] == 1
    ensures IndexOf(s, '@').Some? && IndexOf(s, '@').value >= 1
  {
    PatternIff(s);
    WellFormedHasOneAt(s);
  }

  /** In a well-formed string the last `.` is the last `.` of the domain. */
  lemma WellFormedTopLevelDomain(s: string)
    requires WellFormed(s)
    ensures LastIndexOf(s, '.').Some?
    ensures IndexOf(s, '@').value + 2 <= LastIndexOf(s, '.').value
    ensures TopLevelDomain(s[LastIndexOf(s, '.').value + 1..])
  {
    var i := IndexOf(s, '@').value;
    var d := s[i + 1..];
    var j := LastIndexOf(d, '.').value;
    assert s[i + 1 + j] == d[j] == '.';
    assert s[i + 1 + j + 1..] == d[j + 1..];
    assert '.' !in s[i + 1 + j + 1..];
    LastIndexOfUnique(s, '.', i + 1 + j);
  }

  /**
   In every accepted address the last `.` lies at least two characters after
   the `@`, and the text after it is 2 to 7 ASCII letters.
   */
  lemma AcceptedTopLevelDomain(s: string)
    requires MatchesPattern(s)
    ensures IndexOf(s, '@').Some? && LastIndexOf(s, '.').Some?
    ensures IndexOf(s, '@').value + 2 <= LastIndexOf(s, '.').value
    ensures TopLevelDomain(s[LastIndexOf(s, '.').value + 1..])
  {
    PatternIff(s);
    WellFormedTopLevelDomain(s);
  }

  /** A string without `@` (in particular the empty string) is rejected. */
  lemma NoAtRejected(s: string)
    requires '@' !in s
    ensures Of(s).Failure?
  {
    PatternIff(s);
  }

  /** A string with no `.` anywhere after an `@` (such as `a@b`) is rejected. */
  lemma DotlessDomainRejected(s: string)
    requires forall i :: 0 <= i < |s| && s[i] == '@' ==> '.' !in s[i + 1..]
    ensures Of(s).Failure?
  {
    PatternIff(s);
  }

  /** Three malformed inputs are rejected. */
  lemma SampleRejections()
    ensures Of("").Failure?
    ensures Of("invalid email").Failure?
    ensures Of("a@b").Failure?
  {
    NoAtRejected("");
    NoAtRejected("invalid email");
    DotlessDomainRejected("a@b");
  }

  /** The address the repository's equality test uses is accepted, and kept verbatim. */
  lemma SampleAccepted()
    ensures Of(SampleAddress).Success?
    ensures Of(SampleAddress).value.address == SampleAddress
  {
    SampleWellFormed();
    PatternIff(SampleAddress);
  }
}
