/**
 * The string helpers of String.kt. A Kotlin `String?` is an `Option<Utf16String>`.
 * A Kotlin string is a sequence of UTF-16 code units, and its length, indices
 * and `Char`s count code units, so a string here is a sequence of code units:
 * a character outside the Basic Multilingual Plane is two of them.
 */
module Strings {
  import opened Wrappers

  /** A Kotlin `Char`: one UTF-16 code unit, surrogates included. */
  type CodeUnit = x: int | 0 <= x < 0x1_0000

  /** A Kotlin `String`. */
  type Utf16String = seq<CodeUnit>

  const At: CodeUnit := '@' as int
  const Dot: CodeUnit := '.' as int

  /** The exception `substring` throws for an index outside the string. */
  datatype Error = StringIndexOutOfBounds

  /** The suffix `truncate` appends when none is given: "...". */
  const DefaultSuffix: Utf16String := [Dot, Dot, Dot]

  // ---------------------------------------------------------------------------
  // or

  /** `s.or(value)`: `s` itself when it is not null, otherwise `value`. */
  function Or(s: Option<Utf16String>, value: Utf16String): (r: Utf16String)
    ensures s.Some? ==> r == s.value
    ensures s.None? ==> r == value
  {
    s.GetOr(value)
  }

  // ---------------------------------------------------------------------------
  // truncate

  /**
   * `s.truncate(length, suffix)`: a string longer than `length` is cut to its
   * first `length` characters and `suffix` is appended; any other string is
   * returned unchanged. Lengths and the cut count UTF-16 code units.
   * `substring(0, length)` throws for a negative `length`, and a negative
   * `length` is always below `|s|`, so it always fails.
   */
  function Truncate(s: Utf16String, length: int, suffix: Utf16String := DefaultSuffix): (r: Result<Utf16String, Error>)
    ensures r.Failure? <==> length < 0
    ensures r.Success? && |s| > length ==>
      |r.value| == length + |suffix| && r.value[..length] == s[..length] && r.value[length..] == suffix
    ensures |s| <= length ==> r == Success(s)
  {
    if |s| > length then
      if length < 0 then Failure(StringIndexOutOfBounds)
      else Success(s[..length] + suffix)
    else
      Success(s)
  }

  /** A truncated string never exceeds `length + |suffix|` and keeps a prefix of the original. */
  lemma TruncateBounded(s: Utf16String, length: nat, suffix: Utf16String)
    ensures Truncate(s, length, suffix).Success?
    ensures |Truncate(s, length, suffix).value| <= length + |suffix|
    ensures var r := Truncate(s, length, suffix).value;
      var kept := if |s| <= length then |s| else length;
      kept <= |r| && r[..kept] == s[..kept]
  {
  }

  /** Truncating a second time with the same bound and an empty suffix changes nothing. */
  lemma TruncateIdempotent(s: Utf16String, length: nat)
    ensures var once := Truncate(s, length, []).value;
      Truncate(once, length, []) == Success(once)
  {
  }

  /**
   * A character outside the Basic Multilingual Plane (here U+1F600) is two code
   * units, so truncating it to length 1 keeps only its high surrogate.
   */
  lemma TruncateSplitsSurrogatePair()
    ensures Truncate([0xD83D, 0xDE00], 1) == Success([0xD83D, Dot, Dot, Dot])
  {
    var face: Utf16String := [0xD83D, 0xDE00];
    assert face[..1] + DefaultSuffix == [0xD83D, Dot, Dot, Dot];
  }

  // ---------------------------------------------------------------------------
  // isNotNullOrEmpty, isNotNullOrBlack

  /** `s.isNotNullOrEmpty()`: the negation of Kotlin's `isNullOrEmpty`. */
  function IsNotNullOrEmpty(s: Option<Utf16String>): (r: bool)
    ensures r <==> s.Some? && |s.value| > 0
  {
    !(s.None? || s.value == [])
  }

  /**
   * Kotlin's `isBlank`: every character is whitespace (the empty string is
   * blank). What counts as whitespace is the platform's `Char.isWhitespace`,
   * kept abstract as the parameter `isWhitespace`.
   */
  function IsBlank(s: Utf16String, isWhitespace: CodeUnit -> bool): (r: bool)
    ensures r <==> forall i :: 0 <= i < |s| ==> isWhitespace(s[i])
    decreases |s|
  {
    if s == [] then true
    else isWhitespace(s[0]) && IsBlank(s[1..], isWhitespace)
  }

  /** `s.isNotNullOrBlack()`: the negation of Kotlin's `isNullOrBlank`. */
  function IsNotNullOrBlack(s: Option<Utf16String>, isWhitespace: CodeUnit -> bool): (r: bool)
    ensures r <==> s.Some? && exists i :: 0 <= i < |s.value| && !isWhitespace(s.value[i])
  {
    !(s.None? || IsBlank(s.value, isWhitespace))
  }

  /** A string that is not null and not blank is also not null and not empty. */
  lemma NotBlankIsNotEmpty(s: Option<Utf16String>, isWhitespace: CodeUnit -> bool)
    ensures IsNotNullOrBlack(s, isWhitespace) ==> IsNotNullOrEmpty(s)
  {
  }

  // ---------------------------------------------------------------------------
  // isEmail: the whole string must match [A-Za-z0-9._%+-]+@[A-Za-z0-9.-]+\.[A-Za-z]{2,}

  predicate IsAsciiLetter(c: CodeUnit) {
    'A' as int <= c <= 'Z' as int || 'a' as int <= c <= 'z' as int
  }

  predicate IsAsciiDigit(c: CodeUnit) {
    '0' as int <= c <= '9' as int
  }

  /** The class `[A-Za-z0-9._%+-]` of the part before the '@'. */
  predicate IsLocalChar(c: CodeUnit) {
    || IsAsciiLetter(c) || IsAsciiDigit(c)
    || c == Dot || c == '_' as int || c == '%' as int || c == '+' as int || c == '-' as int
  }

  /** The class `[A-Za-z0-9.-]` of the domain. */
  predicate IsDomainChar(c: CodeUnit) {
    IsAsciiLetter(c) || IsAsciiDigit(c) || c == Dot || c == '-' as int
  }

  predicate AllLocal(s: Utf16String) {
    forall i :: 0 <= i < |s| ==> IsLocalChar(s[i])
  }

  predicate AllDomain(s: Utf16String) {
    forall i :: 0 <= i < |s| ==> IsDomainChar(s[i])
  }

  predicate AllLetters(s: Utf16String) {
    forall i :: 0 <= i < |s| ==> IsAsciiLetter(s[i])
  }

  /** `s == local + "@" + domain + "." + tld`, each part from its class and of its length. */
  ghost predicate IsEmailSplit(s: Utf16String, local: Utf16String, domain: Utf16String, tld: Utf16String) {
    && s == local + [At] + domain + [Dot] + tld
    && |local| >= 1 && AllLocal(local)
    && |domain| >= 1 && AllDomain(domain)
    && |tld| >= 2 && AllLetters(tld)
  }

  /** The language of the pattern: some split of the whole string fits it. */
  ghost predicate MatchesEmailPattern(s: Utf16String) {
    exists local, domain, tld :: IsEmailSplit(s, local, domain, tld)
  }

  /** The index of the first `c` in `s`, or `|s|` when there is none. */
  function FirstIndexOf(s: Utf16String, c: CodeUnit): (k: nat)
    ensures k <= |s|
    ensures k < |s| ==> s[k] == c
    ensures forall i :: 0 <= i < k ==> s[i] != c
    decreases |s|
  {
    if s == [] then 0
    else if s[0] == c then 0
    else 1 + FirstIndexOf(s[1..], c)
  }

  /** The index of the last `c` in `s`, or -1 when there is none. */
  function LastIndexOf(s: Utf16String, c: CodeUnit): (k: int)
    ensures -1 <= k < |s|
    ensures k >= 0 ==> s[k] == c
    ensures forall i :: k < i < |s| ==> s[i] != c
    decreases |s|
  {
    if s == [] then -1
    else if s[|s| - 1] == c then |s| - 1
    else LastIndexOf(s[..|s| - 1], c)
  }

  /**
   * What follows the '@': `[A-Za-z0-9.-]+\.[A-Za-z]{2,}`. The domain class
   * contains '.' and every letter, so the whole rest is over the domain class
   * and the top-level domain is what follows its last '.'.
   */
  function IsEmailHost(r: Utf16String): (ok: bool)
    ensures ok ==> |r| >= 4
  {
    var j := LastIndexOf(r, Dot);
    AllDomain(r) && j >= 1 && |r| - j - 1 >= 2 && AllLetters(r[j + 1..])
  }

  /** The string, read with its '@' at index `k`, has a non-empty local part and an accepted host. */
  predicate AcceptsWithAtSignAt(s: Utf16String, k: int) {
    1 <= k < |s| && AllLocal(s[..k]) && IsEmailHost(s[k + 1..])
  }

  /** A host of the form `domain + "." + tld`, each part fitting its class, is accepted. */
  lemma {:induction false} HostSplit(r: Utf16String, domain: Utf16String, tld: Utf16String)
    requires r == domain + [Dot] + tld
    requires |domain| >= 1 && AllDomain(domain) && |tld| >= 2 && AllLetters(tld)
    ensures IsEmailHost(r)
  {
    var j := LastIndexOf(r, Dot);
    assert r[|domain|] == Dot;
    forall i | |domain| < i < |r| ensures r[i] != Dot {
      assert r[i] == tld[i - |domain| - 1];
    }
    assert j == |domain|;
    assert r[j + 1..] == tld;
    forall i | 0 <= i < |r| ensures IsDomainChar(r[i]) {
      if i < |domain| {
        assert r[i] == domain[i];
      } else if i > |domain| {
        assert r[i] == tld[i - |domain| - 1];
      }
    }
  }

  /** A string the scan accepts at its first '@' has a split that fits the pattern. */
  lemma {:induction false} EmailScanSound(s: Utf16String)
    ensures AcceptsWithAtSignAt(s, FirstIndexOf(s, At)) ==> MatchesEmailPattern(s)
  {
    var k := FirstIndexOf(s, At);
    if AcceptsWithAtSignAt(s, k) {
      var r := s[k + 1..];
      var j := LastIndexOf(r, Dot);
      var local, domain, tld := s[..k], r[..j], r[j + 1..];
      assert r == domain + [Dot] + tld;
      assert s == local + [At] + r;
      assert AllDomain(domain) by {
        forall i | 0 <= i < |domain| ensures IsDomainChar(domain[i]) {
          assert domain[i] == r[i];
        }
      }
      assert IsEmailSplit(s, local, domain, tld);
    }
  }

  /**
   * A string with a split that fits the pattern is accepted by the scan at its
   * first '@': no class contains '@', so the split's '@' is the first one.
   */
  lemma {:induction false} EmailScanComplete(s: Utf16String)
    ensures MatchesEmailPattern(s) ==> AcceptsWithAtSignAt(s, FirstIndexOf(s, At))
  {
    if MatchesEmailPattern(s) {
      var local, domain, tld :| IsEmailSplit(s, local, domain, tld);
      var r := domain + [Dot] + tld;
      assert s == local + [At] + r;
      var k := FirstIndexOf(s, At);
      assert s[|local|] == At;
      forall i | 0 <= i < |local| ensures s[i] != At {
        assert s[i] == local[i];
      }
      assert k == |local|;
      assert s[..k] == local;
      assert s[k + 1..] == r;
      HostSplit(r, domain, tld);
    }
  }

  /**
   * `s.isEmail()`: the whole string matches
   * `[A-Za-z0-9._%+-]+@[A-Za-z0-9.-]+\.[A-Za-z]{2,}`. The regular expression
   * is decided by a scan for the first '@' and the last '.' after it.
   */
  function IsEmail(s: Utf16String): (r: bool)
    ensures r <==> MatchesEmailPattern(s)
  {
    EmailScanSound(s);
    EmailScanComplete(s);
    AcceptsWithAtSignAt(s, FirstIndexOf(s, At))
  }

  /** An accepted address holds exactly one '@': no character class contains it. */
  lemma {:induction false} EmailHasOneAt(s: Utf16String)
    requires IsEmail(s)
    ensures multiset(s)[At] == 1
  {
    var local, domain, tld :| IsEmailSplit(s, local, domain, tld);
    assert At !in local && At !in domain && At !in tld;
    var at, dot: Utf16String := [At], [Dot];
    assert s == local + at + domain + dot + tld;
    assert multiset(s) == multiset(local) + multiset(at) + multiset(domain) + multiset(dot) + multiset(tld);
  }
}
