/** `check_email`: the fixed address pattern `^[a-z0-9]+[._]?[a-z0-9]+@\w+\.\w{2,3}$`.
    The pattern is stated once as a reference predicate that reads the regular expression
    piece by piece (a witness index for each place where one piece ends and the next
    begins), and once as a deterministic scan; lemma CheckEmailMatchesPattern proves the
    two agree on every string. */
module Email {

  /** `[a-z0-9]` */
  predicate IsLocalChar(c: char)
  {
    'a' <= c <= 'z' || '0' <= c <= '9'
  }

  /** `[\._]` */
  predicate IsSeparator(c: char)
  {
    c == '.' || c == '_'
  }

  /** `\w`, restricted to ASCII: `[A-Za-z0-9_]` */
  predicate IsWordChar(c: char)
  {
    'a' <= c <= 'z' || 'A' <= c <= 'Z' || '0' <= c <= '9' || c == '_'
  }

  predicate AllLocal(s: string)
  {
    forall i :: 0 <= i < |s| ==> IsLocalChar(s[i])
  }

  predicate AllWord(s: string)
  {
    forall i :: 0 <= i < |s| ==> IsWordChar(s[i])
  }

  // ---- The pattern, read as a regular expression ----

  /** `l` is `[a-z0-9]+[._]?[a-z0-9]+` with the first run ending at `i` and the second
      starting at `j` (`j == i` when the optional separator is absent). */
  ghost predicate LocalSplit(l: string, i: int, j: int)
  {
    0 < i <= j < |l| && j <= i + 1
    && AllLocal(l[..i])
    && (j == i + 1 ==> IsSeparator(l[i]))
    && AllLocal(l[j..])
  }

  /** `d` is `\w+[.]\w{2,3}` with the dot at `i`. */
  ghost predicate DomainSplit(d: string, i: int)
  {
    0 < i < |d| && AllWord(d[..i]) && d[i] == '.' && 2 <= |d| - i - 1 <= 3 && AllWord(d[i + 1..])
  }

  ghost predicate IsLocalPart(l: string)
  {
    exists i, j :: LocalSplit(l, i, j)
  }

  ghost predicate IsDomain(d: string)
  {
    exists i :: DomainSplit(d, i)
  }

  /** The `[@]` of the pattern is at `at`, with a local part before it and a domain after. */
  ghost predicate EmailSplit(s: string, at: int)
  {
    0 <= at < |s| && s[at] == '@' && IsLocalPart(s[..at]) && IsDomain(s[at + 1..])
  }

  /** `re.match(regex, s)` succeeds (anchored at both ends). */
  ghost predicate MatchesPattern(s: string)
  {
    exists at :: EmailSplit(s, at)
  }

  // ---- The scan ----

  /** Index of the first `c` in `s`, or `|s|` when there is none. */
  function IndexOf(s: string, c: char): (k: nat)
    ensures k <= |s| && (k < |s| ==> s[k] == c)
    ensures forall j :: 0 <= j < k ==> s[j] != c
  {
    if s == [] then 0
    else if s[0] == c then 0
    else 1 + IndexOf(s[1..], c)
  }

  /** Index of the first separator in `s`, or `|s|` when there is none. */
  function FirstSeparator(s: string): (k: nat)
    ensures k <= |s| && (k < |s| ==> IsSeparator(s[k]))
    ensures forall j :: 0 <= j < k ==> !IsSeparator(s[j])
  {
    if s == [] then 0
    else if IsSeparator(s[0]) then 0
    else 1 + FirstSeparator(s[1..])
  }

  /** The local part: at least two `[a-z0-9]` characters, with at most one separator and
      that one neither first nor last. */
  predicate CheckLocalPart(l: string)
  {
    var k := FirstSeparator(l);
    if k == |l| then |l| >= 2 && AllLocal(l)
    else 0 < k < |l| - 1 && AllLocal(l[..k]) && AllLocal(l[k + 1..])
  }

  /** The domain: word characters, the first dot, then two or three word characters. */
  predicate CheckDomain(d: string)
  {
    var k := IndexOf(d, '.');
    0 < k < |d| && AllWord(d[..k]) && 2 <= |d| - k - 1 <= 3 && AllWord(d[k + 1..])
  }

  /** `check_email`: split at the first `@` and check both sides. */
  predicate CheckEmail(s: string)
  {
    var at := IndexOf(s, '@');
    at < |s| && CheckLocalPart(s[..at]) && CheckDomain(s[at + 1..])
  }

  // ---- The two agree ----

  lemma CheckLocalPartMatches(l: string)
    ensures CheckLocalPart(l) <==> IsLocalPart(l)
  {
    var k := FirstSeparator(l);
    if CheckLocalPart(l) {
      if k == |l| {
        assert LocalSplit(l, 1, 1);
      } else {
        assert LocalSplit(l, k, k + 1);
      }
    }
    if i, j :| LocalSplit(l, i, j) {
      if j == i {
        assert forall m :: 0 <= m < |l| ==> IsLocalChar(l[m]) by {
          forall m | 0 <= m < |l| ensures IsLocalChar(l[m]) {
            if m < i { assert l[m] == l[..i][m]; } else { assert l[m] == l[j..][m - j]; }
          }
        }
        assert k == |l|;
      } else {
        assert forall m :: 0 <= m < i ==> l[m] == l[..i][m];
        assert k == i;
        assert l[k + 1..] == l[j..];
      }
    }
  }

  lemma CheckDomainMatches(d: string)
    ensures CheckDomain(d) <==> IsDomain(d)
  {
    var k := IndexOf(d, '.');
    if CheckDomain(d) {
      assert DomainSplit(d, k);
    }
    if i :| DomainSplit(d, i) {
      assert forall m :: 0 <= m < i ==> d[m] == d[..i][m];
      assert k == i;
    }
  }

  /** `IndexOf` finds the first occurrence: a `c` at `k` with none before it. */
  lemma IndexOfAt(s: string, c: char, k: int)
    requires 0 <= k < |s| && s[k] == c
    requires forall m :: 0 <= m < k ==> s[m] != c
    ensures IndexOf(s, c) == k
  {
  }

  /** No character of a local part is `@`. */
  lemma LocalPartHasNoAt(l: string, i: int, j: int)
    requires LocalSplit(l, i, j)
    ensures forall m :: 0 <= m < |l| ==> l[m] != '@'
  {
    forall m | 0 <= m < |l|
      ensures l[m] != '@'
    {
      if m < i {
        assert l[m] == l[..i][m];
      } else if m >= j {
        assert l[m] == l[j..][m - j];
      }
    }
  }

  /** Every string the scan accepts matches the pattern. */
  lemma CheckedMatchesPattern(s: string)
    ensures CheckEmail(s) ==> MatchesPattern(s)
  {
    if CheckEmail(s) {
      var at := IndexOf(s, '@');
      CheckLocalPartMatches(s[..at]);
      CheckDomainMatches(s[at + 1..]);
      assert EmailSplit(s, at);
    }
  }

  /** Every string the pattern matches is accepted by the scan: the `@` of any match is
      the first `@`, since the local part before it has none. */
  lemma PatternMatchChecked(s: string)
    ensures MatchesPattern(s) ==> CheckEmail(s)
  {
    if a :| EmailSplit(s, a) {
      var l := s[..a];
      var i, j :| LocalSplit(l, i, j);
      LocalPartHasNoAt(l, i, j);
      assert forall m :: 0 <= m < a ==> s[m] != '@' by {
        forall m | 0 <= m < a
          ensures s[m] != '@'
        {
          assert s[m] == l[m];
        }
      }
      IndexOfAt(s, '@', a);
      CheckLocalPartMatches(l);
      CheckDomainMatches(s[a + 1..]);
    }
  }

  /** The scan accepts exactly the strings the pattern matches. */
  lemma CheckEmailMatchesPattern(s: string)
    ensures CheckEmail(s) <==> MatchesPattern(s)
  {
    CheckedMatchesPattern(s);
    PatternMatchChecked(s);
  }

  /** The pattern admits addresses such as `aaa_ddd@gmail.com`, as the source's comment
      says. */
  lemma AcceptedExample()
    ensures MatchesPattern("aaa_ddd@gmail.com")
  {
    var s := "aaa_ddd@gmail.com";
    assert LocalSplit(s[..7], 3, 4);
    assert DomainSplit(s[8..], 5);
    assert EmailSplit(s, 7);
  }

  /** A string whose first `@` is at `at` and whose local part the scan rejects does not
      match. */
  lemma LocalPartRejected(s: string, at: int)
    requires 0 <= at < |s| && s[at] == '@' && forall m :: 0 <= m < at ==> s[m] != '@'
    requires !CheckLocalPart(s[..at])
    ensures !MatchesPattern(s)
  {
    IndexOfAt(s, '@', at);
    PatternMatchChecked(s);
  }

  /** A string whose first `@` is at `at` and whose domain the scan rejects does not match. */
  lemma DomainRejected(s: string, at: int)
    requires 0 <= at < |s| && s[at] == '@' && forall m :: 0 <= m < at ==> s[m] != '@'
    requires !CheckDomain(s[at + 1..])
    ensures !MatchesPattern(s)
  {
    IndexOfAt(s, '@', at);
    PatternMatchChecked(s);
  }

  /** A one-character local part is rejected. */
  lemma ShortLocalPartRejected()
    ensures !MatchesPattern("a@gmail.com")
  {
    var l := "a";
    assert !IsSeparator(l[0]);
    assert "a@gmail.com"[..1] == l;
    LocalPartRejected("a@gmail.com", 1);
  }

  /** An upper-case letter in the local part is rejected. */
  lemma UpperCaseRejected()
    ensures !MatchesPattern("Ab@gmail.com")
  {
    var l := "Ab";
    assert !IsSeparator(l[0]) && !IsSeparator(l[1]) && !IsLocalChar(l[0]);
    assert "Ab@gmail.com"[..2] == l;
    LocalPartRejected("Ab@gmail.com", 2);
  }

  /** Two separators in the local part are rejected. */
  lemma TwoSeparatorsRejected()
    ensures !MatchesPattern("a.b_c@gmail.com")
  {
    var l := "a.b_c";
    assert !IsSeparator(l[0]) && IsSeparator(l[1]);
    assert l[2..] == "b_c" && !IsLocalChar(l[2..][1]);
    assert "a.b_c@gmail.com"[..5] == l;
    LocalPartRejected("a.b_c@gmail.com", 5);
  }

  /** A domain with two dots is rejected. */
  lemma TwoDotDomainRejected()
    ensures !MatchesPattern("ab@a.co.uk")
  {
    var d := "a.co.uk";
    IndexOfAt(d, '.', 1);
    assert "ab@a.co.uk"[3..] == d;
    DomainRejected("ab@a.co.uk", 2);
  }
}
