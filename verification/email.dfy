/**
  The email format both authentication screens test, the regular expression
  `^[^\s@]+@[^\s@]+\.[^\s@]+$`, in two forms: the language the expression matches,
  and a structural check that reads the address the way a person would.
 */
module Email {
  import opened Text

  /** A character of the class `[^\s@]`. */
  predicate NameChar(c: char) {
    c != '@' && !IsSpace(c)
  }

  /** A string matched by `[^\s@]+`. */
  predicate NameRun(t: string) {
    |t| > 0 && forall i :: 0 <= i < |t| ==> NameChar(t[i])
  }

  /** The strings the expression matches: some `@` at position `i` and some `.` at a later
      position `j` cut `s` into three non-empty runs of `[^\s@]`. The regular expression
      backtracks, so any choice of `.` after the `@` will do. */
  ghost predicate MatchesEmailRegex(s: string) {
    exists i, j :: 0 <= i < j < |s| && s[i] == '@' && s[j] == '.'
      && NameRun(s[..i]) && NameRun(s[i + 1..j]) && NameRun(s[j + 1..])
  }

  /** A domain with a `.` that is neither its first nor its last character. */
  predicate HasInnerDot(d: string) {
    |d| >= 3 && '.' in d[1..|d| - 1]
  }

  /** The structural reading of the address: no whitespace anywhere, exactly one `@`,
      something before it, and a domain after it with an inner `.`. */
  predicate IsEmail(s: string) {
    && NoSpace(s)
    && var parts := Split(s, '@');
    && |parts| == 2 && parts[0] != [] && HasInnerDot(parts[1])
  }

  /** The structural check accepts exactly the strings the regular expression matches. */
  lemma IsEmailMatchesRegex(s: string)
    ensures IsEmail(s) <==> MatchesEmailRegex(s)
  {
    if IsEmail(s) {
      IsEmailSound(s);
    }
    if MatchesEmailRegex(s) {
      IsEmailComplete(s);
    }
  }

  /** Every structurally valid address is matched by the expression. */
  lemma IsEmailSound(s: string)
    requires IsEmail(s)
    ensures MatchesEmailRegex(s)
  {
    var parts := Split(s, '@');
    var local, domain := parts[0], parts[1];
    JoinSplit(s, '@');
    assert parts[1..] == [domain];
    assert s == local + ['@'] + domain;
    var m :| 0 <= m < |domain| - 2 && domain[1..|domain| - 1][m] == '.';
    NoSpaceParts(local, ['@'], domain);
    RegexFromParts(local, domain, m + 1);
  }

  /** An `@` between a non-empty local part and a domain with a `.` strictly inside it, none
      of them holding whitespace or another `@`, is matched by the expression. */
  lemma RegexFromParts(local: string, domain: string, k: nat)
    requires local != [] && NoSpace(local) && NoSpace(domain) && '@' !in local && '@' !in domain
    requires 0 < k < |domain| - 1 && domain[k] == '.'
    ensures MatchesEmailRegex(local + ['@'] + domain)
  {
    var s := local + ['@'] + domain;
    var i, j := |local|, |local| + 1 + k;
    assert s[..i] == local;
    assert s[i + 1..j] == domain[..k];
    assert s[j + 1..] == domain[k + 1..];
    assert s[i] == '@' && s[j] == '.';
    NoSpaceSlice(domain, 0, k);
    NoSpaceSlice(domain, k + 1, |domain|);
    assert domain[k + 1..|domain|] == domain[k + 1..];
    NameRunOf(local);
    NameRunOf(domain[..k]);
    NameRunOf(domain[k + 1..]);
  }

  /** A piece of a string without whitespace or `@` has neither. */
  lemma NoSpaceSlice(d: string, x: nat, y: nat)
    requires x <= y <= |d| && NoSpace(d) && '@' !in d
    ensures NoSpace(d[x..y]) && '@' !in d[x..y]
  {
    forall t | 0 <= t < y - x ensures !IsSpace(d[x..y][t]) && d[x..y][t] != '@' {
      assert d[x..y][t] == d[x + t];
    }
  }

  /** A non-empty string with neither whitespace nor `@` is a run of `[^\s@]`. */
  lemma NameRunOf(t: string)
    requires t != [] && NoSpace(t) && '@' !in t
    ensures NameRun(t)
  {
  }

  /** The outer pieces of a whitespace-free concatenation are whitespace-free. */
  lemma NoSpaceParts(a: string, b: string, c: string)
    requires NoSpace(a + b + c)
    ensures NoSpace(a) && NoSpace(c)
  {
    var s := a + b + c;
    forall t | 0 <= t < |a| ensures !IsSpace(a[t]) {
      assert a[t] == s[t];
    }
    forall t | 0 <= t < |c| ensures !IsSpace(c[t]) {
      assert c[t] == s[|a| + |b| + t];
    }
  }

  /** Every string the expression matches passes the structural check. */
  lemma IsEmailComplete(s: string)
    requires MatchesEmailRegex(s)
    ensures IsEmail(s)
  {
    var i, j :| 0 <= i < j < |s| && s[i] == '@' && s[j] == '.'
      && NameRun(s[..i]) && NameRun(s[i + 1..j]) && NameRun(s[j + 1..]);
    CutTwice(s, i, j);
    EmailFromRuns(s[..i], s[i + 1..j], s[j + 1..]);
  }

  /** A string cut at two positions is the text before, between and after them, glued by the
      two characters found there. */
  lemma CutTwice(s: string, i: nat, j: nat)
    requires i < j < |s|
    ensures s == s[..i] + [s[i]] + (s[i + 1..j] + [s[j]] + s[j + 1..])
  {
    var rest := s[i + 1..];
    CutAt(s, i);
    CutAt(rest, j - i - 1);
    assert rest[..j - i - 1] == s[i + 1..j];
    assert rest[j - i..] == s[j + 1..];
  }

  /** Three runs of `[^\s@]` glued by `@` and `.` form a structurally valid address. */
  lemma EmailFromRuns(local: string, mid: string, tail: string)
    requires NameRun(local) && NameRun(mid) && NameRun(tail)
    ensures IsEmail(local + ['@'] + (mid + ['.'] + tail))
  {
    var domain := mid + ['.'] + tail;
    NameRunChars(local);
    NameRunChars(mid);
    NameRunChars(tail);
    NoSpaceConcat(mid, ['.']);
    NoSpaceConcat(mid + ['.'], tail);
    NoSpaceConcat(local, ['@']);
    NoSpaceConcat(local + ['@'], domain);
    assert '@' !in domain;
    SplitTwo(local, '@', domain);
    assert domain[1..|domain| - 1][|mid| - 1] == '.';
  }

  /** A run of `[^\s@]` holds neither `@` nor whitespace. */
  lemma NameRunChars(t: string)
    requires NameRun(t)
    ensures '@' !in t && NoSpace(t)
  {
    forall k | 0 <= k < |t| ensures t[k] != '@' && !IsSpace(t[k]) {
      assert NameChar(t[k]);
    }
  }

  /** Strings without whitespace are closed under concatenation. */
  lemma NoSpaceConcat(a: string, b: string)
    requires NoSpace(a) && NoSpace(b)
    ensures NoSpace(a + b)
  {
    forall k | 0 <= k < |a + b| ensures !IsSpace((a + b)[k]) {
      if k < |a| { assert (a + b)[k] == a[k]; } else { assert (a + b)[k] == b[k - |a|]; }
    }
  }

  /** A valid address has no whitespace, so trimming it before sign-up or sign-in sends
      exactly the string that was validated. */
  lemma EmailTrimIsIdentity(s: string)
    requires IsEmail(s)
    ensures Trim(s) == s
  {
    TrimNoSpace(s);
  }
}
