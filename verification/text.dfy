/**
  The string primitives the app relies on, as ECMAScript defines them:
  whitespace, `trim`, `split` on one character, `toLowerCase`, `includes`, `length` in UTF-16
  code units, and the decimal text of a number. Strings are sequences of characters.
 */
module Text {

  /** A character ECMAScript counts as WhiteSpace or LineTerminator. This one set is both what
      the regular-expression class `\s` matches and what `String.prototype.trim` removes. */
  predicate IsSpace(c: char) {
    || c == '\t' || c == '\n' || c == '\U{000B}' || c == '\U{000C}' || c == '\r' || c == ' '
    || c == '\U{00A0}' || c == '\U{1680}' || ('\U{2000}' <= c <= '\U{200A}')
    || c == '\U{2028}' || c == '\U{2029}' || c == '\U{202F}' || c == '\U{205F}'
    || c == '\U{3000}' || c == '\U{FEFF}'
  }

  /** Below U+0080 the whitespace characters are exactly tab, line feed, vertical tab, form
      feed, carriage return and space; none of the others lies outside the Basic Multilingual
      Plane. */
  lemma SpaceChars(c: char)
    ensures c < '\U{0080}' ==> (IsSpace(c) <==> c in ['\t', '\n', '\U{000B}', '\U{000C}', '\r', ' '])
    ensures IsSpace(c) ==> !Astral(c)
  {
  }

  /** Every character of `s` is whitespace (vacuously so for the empty string). */
  predicate AllSpace(s: string) {
    forall i :: 0 <= i < |s| ==> IsSpace(s[i])
  }

  /** No character of `s` is whitespace. */
  predicate NoSpace(s: string) {
    forall i :: 0 <= i < |s| ==> !IsSpace(s[i])
  }

  /** `s` neither starts nor ends with whitespace: the shape of a trimmed string. */
  predicate Trimmed(s: string) {
    s == [] || (!IsSpace(s[0]) && !IsSpace(s[|s| - 1]))
  }

  /** Drops the leading whitespace of `s`. */
  function TrimStart(s: string): (r: string)
    ensures |r| <= |s| && r == s[|s| - |r|..]
    ensures AllSpace(s[..|s| - |r|])
    ensures r == [] || !IsSpace(r[0])
    decreases |s|
  {
    if |s| > 0 && IsSpace(s[0]) then
      var r := TrimStart(s[1..]);
      var k := |s| - |r|;
      assert s[1..][k - 1..] == s[k..];
      assert AllSpace(s[..k]) by {
        forall i | 0 <= i < k ensures IsSpace(s[..k][i]) {
          if i > 0 { assert s[..k][i] == s[1..][..k - 1][i - 1]; }
        }
      }
      r
    else s
  }

  /** Drops the trailing whitespace of `s`. */
  function TrimEnd(s: string): (r: string)
    ensures |r| <= |s| && r == s[..|r|]
    ensures AllSpace(s[|r|..])
    ensures r == [] || !IsSpace(r[|r| - 1])
    decreases |s|
  {
    if |s| > 0 && IsSpace(s[|s| - 1]) then
      var r := TrimEnd(s[..|s| - 1]);
      assert s[..|s| - 1][..|r|] == s[..|r|];
      assert AllSpace(s[|r|..]) by {
        forall i | 0 <= i < |s| - |r| ensures IsSpace(s[|r|..][i]) {
          if i < |s| - 1 - |r| { assert s[|r|..][i] == s[..|s| - 1][|r|..][i]; }
        }
      }
      r
    else s
  }

  /** `String.prototype.trim`: the result neither starts nor ends with whitespace. That it is
      what remains of `s` once the whitespace on either side is cut off is `TrimParts`, and
      that it is the only such piece is `TrimUnique`. */
  function Trim(s: string): (r: string)
    ensures |r| <= |s|
    ensures Trimmed(r)
  {
    var t := TrimStart(s);
    var r := TrimEnd(t);
    assert Trimmed(r) by {
      if r != [] {
        assert r[0] == t[0];
      }
    }
    r
  }

  /** Trimming yields the empty string exactly when `s` is all whitespace. */
  lemma TrimEmptyIffAllSpace(s: string)
    ensures Trim(s) == [] <==> AllSpace(s)
  {
    var t := TrimStart(s);
    if Trim(s) == [] {
      assert AllSpace(t) by {
        assert t[0..] == t;
      }
      assert s[..|s|] == s;
    }
  }

  /** Leading whitespace never survives `TrimStart`, and whatever follows it is kept whole. */
  lemma {:induction false} TrimStartAfterSpace(a: string, s: string)
    requires AllSpace(a)
    ensures TrimStart(a + s) == TrimStart(s)
    decreases |a|
  {
    if a != [] {
      assert (a + s)[0] == a[0];
      assert (a + s)[1..] == a[1..] + s;
      TrimStartAfterSpace(a[1..], s);
    } else {
      assert a + s == s;
    }
  }

  /** Trailing whitespace never survives `TrimEnd`. */
  lemma {:induction false} TrimEndBeforeSpace(s: string, b: string)
    requires AllSpace(b)
    ensures TrimEnd(s + b) == TrimEnd(s)
    decreases |b|
  {
    if b != [] {
      assert (s + b)[|s + b| - 1] == b[|b| - 1];
      assert (s + b)[..|s + b| - 1] == s + b[..|b| - 1];
      TrimEndBeforeSpace(s, b[..|b| - 1]);
    } else {
      assert s + b == s;
    }
  }

  /** `Trim` is characterised by its shape: whenever `s` is `a + r + b` with whitespace `a` and
      `b` and a trimmed `r`, the trim of `s` is exactly `r`. */
  lemma TrimUnique(a: string, r: string, b: string)
    requires AllSpace(a) && AllSpace(b) && Trimmed(r)
    ensures Trim(a + r + b) == r
  {
    assert a + r + b == a + (r + b);
    TrimStartAfterSpace(a, r + b);
    if r == [] {
      assert r + b == b;
      TrimStartAfterSpace(b, []);
      assert b + [] == b;
    } else {
      assert TrimStart(r + b) == r + b;
      TrimEndBeforeSpace(r, b);
      assert TrimEnd(r) == r;
    }
  }

  /** Whitespace strings are closed under concatenation. */
  lemma AllSpaceConcat(a: string, b: string)
    requires AllSpace(a) && AllSpace(b)
    ensures AllSpace(a + b)
  {
    forall k | 0 <= k < |a + b| ensures IsSpace((a + b)[k]) {
      if k < |a| { assert (a + b)[k] == a[k]; } else { assert (a + b)[k] == b[k - |a|]; }
    }
  }

  /** The whitespace `Trim` cuts off on either side of `u`. */
  lemma TrimParts(u: string) returns (a: string, b: string)
    ensures u == a + Trim(u) + b && AllSpace(a) && AllSpace(b)
  {
    var t := TrimStart(u);
    var r := TrimEnd(t);
    assert Trim(u) == r;
    a, b := u[..|u| - |t|], t[|r|..];
    assert AllSpace(a);
    assert AllSpace(b);
    SliceSplit(u, |u| - |t|);
    SliceSplit(t, |r|);
    Regroup(a, r, b);
  }

  /** Whitespace added around a string never changes its trim. */
  lemma TrimIgnoresPadding(a: string, u: string, b: string)
    requires AllSpace(a) && AllSpace(b)
    ensures Trim(a + u + b) == Trim(u)
  {
    var a', b' := TrimParts(u);
    var r := Trim(u);
    SeqAssoc(a, a', r, b', b);
    AllSpaceConcat(a, a');
    AllSpaceConcat(b', b);
    TrimUnique(a + a', r, b' + b);
  }

  /** A string without whitespace is its own trim. */
  lemma TrimNoSpace(s: string)
    requires NoSpace(s)
    ensures Trim(s) == s
  {
    TrimUnique([], s, []);
    assert [] + s + [] == s;
  }

  /** A character outside the Basic Multilingual Plane, which UTF-16 writes as a surrogate
      pair. */
  predicate Astral(c: char) {
    c > '\U{FFFF}'
  }

  /** The UTF-16 code units of one character: two for an astral one, one otherwise. */
  function CodeUnits(c: char): nat {
    if Astral(c) then 2 else 1
  }

  /** JavaScript's `length`: the number of UTF-16 code units of `s`, not of characters. */
  function Utf16Length(s: string): (n: nat)
    ensures |s| <= n <= 2 * |s|
    ensures n == 0 <==> s == []
    decreases |s|
  {
    if s == [] then 0 else CodeUnits(s[0]) + Utf16Length(s[1..])
  }

  /** Code units add up over concatenation. */
  lemma {:induction false} Utf16LengthConcat(a: string, b: string)
    ensures Utf16Length(a + b) == Utf16Length(a) + Utf16Length(b)
    decreases |a|
  {
    if a != [] {
      assert (a + b)[0] == a[0];
      assert (a + b)[1..] == a[1..] + b;
      Utf16LengthConcat(a[1..], b);
    } else {
      assert a + b == b;
    }
  }

  /** `length` counts characters exactly when no character is astral; each astral one counts
      twice. */
  lemma {:induction false} Utf16LengthCountsAstral(s: string)
    ensures Utf16Length(s) == |s| <==> forall i :: 0 <= i < |s| ==> !Astral(s[i])
    decreases |s|
  {
    if s != [] {
      Utf16LengthCountsAstral(s[1..]);
      if forall i :: 0 <= i < |s| ==> !Astral(s[i]) {
        assert forall i :: 0 <= i < |s[1..]| ==> !Astral(s[1..][i]) by {
          forall i | 0 <= i < |s[1..]| ensures !Astral(s[1..][i]) {
            assert s[1..][i] == s[i + 1];
          }
        }
      }
      if Utf16Length(s) == |s| {
        forall i | 0 <= i < |s| ensures !Astral(s[i]) {
          if i > 0 { assert s[i] == s[1..][i - 1]; }
        }
      }
    }
  }

  /** ASCII lower-casing of one character. */
  function LowerChar(c: char): char {
    if 'A' <= c <= 'Z' then (c as int - 'A' as int + 'a' as int) as char else c
  }

  /** `toLowerCase`, restricted to the ASCII letters. */
  function Lower(s: string): (r: string)
    ensures |r| == |s|
    ensures forall i :: 0 <= i < |r| ==> r[i] == LowerChar(s[i])
    ensures forall i :: 0 <= i < |r| ==> !('A' <= r[i] <= 'Z')
  {
    seq(|s|, i requires 0 <= i < |s| => LowerChar(s[i]))
  }

  /** Lower-casing a lower-cased string changes nothing. */
  lemma LowerIdempotent(s: string)
    ensures Lower(Lower(s)) == Lower(s)
  {
  }

  /** Lower-casing works character by character, so it distributes over concatenation. */
  lemma LowerConcat(a: string, b: string)
    ensures Lower(a + b) == Lower(a) + Lower(b)
  {
    assert forall i :: 0 <= i < |a + b| ==> Lower(a + b)[i] == (Lower(a) + Lower(b))[i];
  }

  /** `s.includes(p)`: `p` occurs in `s` at some offset. */
  predicate Contains(s: string, p: string) {
    exists i :: 0 <= i <= |s| - |p| && p <= s[i..]
  }

  /** A string glued in anywhere is found. */
  lemma ContainsInfix(a: string, p: string, b: string)
    ensures Contains(a + p + b, p)
  {
    assert p <= (a + p + b)[|a|..];
  }

  /** Every character of a contained string occurs in the containing one; used to show that a
      message lacking one of the needle's characters cannot contain the needle. */
  lemma ContainsChars(s: string, p: string, k: int)
    requires Contains(s, p) && 0 <= k < |p|
    ensures p[k] in s
  {
    var i :| 0 <= i <= |s| - |p| && p <= s[i..];
    assert s[i + k] == p[k];
  }

  /** The first position of `c` in `s`. */
  function IndexOf(s: string, c: char): (i: nat)
    requires c in s
    ensures i < |s| && s[i] == c && c !in s[..i]
  {
    if s[0] == c then 0 else
      var j := IndexOf(s[1..], c);
      assert s[..j + 1] == [s[0]] + s[1..][..j];
      j + 1
  }

  /** The inverse of `Split`: the parts glued back together with `sep` between neighbours. */
  function Join(parts: seq<string>, sep: char): string
    requires |parts| >= 1
  {
    if |parts| == 1 then parts[0] else parts[0] + [sep] + Join(parts[1..], sep)
  }

  /** No part contains the separator. */
  predicate SeparatorFree(parts: seq<string>, sep: char) {
    forall k :: 0 <= k < |parts| ==> sep !in parts[k]
  }

  /** `s.split(sep)` for a one-character separator: the maximal separator-free pieces of `s`,
      one more than there are separators, which `Join` puts back together into `s`. */
  function Split(s: string, sep: char): (parts: seq<string>)
    ensures |parts| >= 1
    ensures SeparatorFree(parts, sep)
    decreases |s|
  {
    if sep !in s then [s]
    else
      var i := IndexOf(s, sep);
      [s[..i]] + Split(s[i + 1..], sep)
  }

  /** `Join` undoes `Split`: the pieces glued back together with the separator give `s`. */
  lemma {:induction false} JoinSplit(s: string, sep: char)
    ensures Join(Split(s, sep), sep) == s
    decreases |s|
  {
    if sep in s {
      var i := IndexOf(s, sep);
      var rest := Split(s[i + 1..], sep);
      var parts := [s[..i]] + rest;
      assert parts == Split(s, sep);
      assert parts[1..] == rest;
      assert Join(parts, sep) == s[..i] + [sep] + Join(rest, sep);
      JoinSplit(s[i + 1..], sep);
      CutAt(s, i);
    }
  }

  /** `Split` undoes `Join`: splitting separator-free parts joined by the separator gives the
      parts back. Together with `JoinSplit` this makes the two mutual inverses. */
  lemma {:induction false} SplitJoin(parts: seq<string>, sep: char)
    requires |parts| >= 1 && SeparatorFree(parts, sep)
    ensures Split(Join(parts, sep), sep) == parts
    decreases |parts|
  {
    if |parts| == 1 {
      assert sep !in parts[0];
    } else {
      var tail := Join(parts[1..], sep);
      assert sep !in parts[0];
      SplitFirst(parts[0], sep, tail);
      SplitJoin(parts[1..], sep);
      assert parts == [parts[0]] + parts[1..];
    }
  }

  /** Splitting a string made of a prefix, one separator and a separator-free tail. */
  lemma SplitLast(p: string, sep: char, e: string)
    requires sep !in e
    ensures Split(p + [sep] + e, sep) == Split(p, sep) + [e]
  {
    var ps := Split(p, sep) + [e];
    JoinSplit(p, sep);
    JoinAppend(Split(p, sep), sep, e);
    assert Join(ps, sep) == p + [sep] + e;
    assert SeparatorFree(ps, sep) by {
      forall k | 0 <= k < |ps| ensures sep !in ps[k] {
        if k < |ps| - 1 { assert ps[k] == Split(p, sep)[k]; }
      }
    }
    SplitJoin(ps, sep);
  }

  /** Joining with one more part appended. */
  lemma {:induction false} JoinAppend(parts: seq<string>, sep: char, e: string)
    requires |parts| >= 1
    ensures Join(parts + [e], sep) == Join(parts, sep) + [sep] + e
    decreases |parts|
  {
    var ps := parts + [e];
    if |parts| == 1 {
      assert ps[1..] == [e];
    } else {
      assert ps[1..] == parts[1..] + [e];
      JoinAppend(parts[1..], sep, e);
    }
  }

  /** The last piece of `split` is the tail of `s` after its last separator, or all of `s`
      when it has none. */
  lemma LastPiece(s: string, sep: char)
    ensures var parts := Split(s, sep); var e := parts[|parts| - 1];
      && |e| <= |s| && e == s[|s| - |e|..]
      && (|e| < |s| ==> s[|s| - |e| - 1] == sep)
  {
    var parts := Split(s, sep);
    var e := parts[|parts| - 1];
    JoinSplit(s, sep);
    if |parts| > 1 {
      var init := parts[..|parts| - 1];
      assert parts == init + [e];
      JoinAppend(init, sep, e);
      TailAfter(Join(init, sep), sep, e);
    }
  }

  /** Splitting at a first separator that follows a separator-free head. */
  lemma SplitFirst(a: string, sep: char, b: string)
    requires sep !in a
    ensures Split(a + [sep] + b, sep) == [a] + Split(b, sep)
  {
    var s := a + [sep] + b;
    IndexAfterHead(a, sep, b);
    assert s[..|a|] == a;
    assert s[|a| + 1..] == b;
  }

  /** The first separator of `a + [sep] + b` is the one after a separator-free `a`. */
  lemma IndexAfterHead(a: string, sep: char, b: string)
    requires sep !in a
    ensures IndexOf(a + [sep] + b, sep) == |a|
  {
    var s := a + [sep] + b;
    var j := IndexOf(s, sep);
    assert forall m :: 0 <= m < |a| ==> s[m] == a[m];
    assert forall m :: 0 <= m < j ==> s[m] != sep by {
      forall m | 0 <= m < j ensures s[m] != sep {
        assert s[..j][m] == s[m];
      }
    }
    assert s[|a|] == sep;
  }

  /** The parts of a string with exactly one separator. */
  lemma SplitTwo(a: string, sep: char, b: string)
    requires sep !in a && sep !in b
    ensures Split(a + [sep] + b, sep) == [a, b]
  {
    var ps := [a, b];
    assert ps[1..] == [b];
    SplitJoin(ps, sep);
  }

  /** The decimal digit for `d`. */
  function DigitChar(d: nat): char
    requires d < 10
  {
    ('0' as int + d) as char
  }

  /** A string of decimal digits. */
  predicate AllDigits(s: string) {
    forall i :: 0 <= i < |s| ==> '0' <= s[i] <= '9'
  }

  /** A number rendered in decimal, as a template literal renders a non-negative integer: at
      least one digit, and no leading zero. */
  function Decimal(n: nat): (r: string)
    ensures |r| >= 1 && AllDigits(r)
    ensures r[0] != '0' || n == 0
  {
    if n < 10 then [DigitChar(n)] else Decimal(n / 10) + [DigitChar(n % 10)]
  }

  /** The number a string of decimal digits denotes. */
  function DecimalValue(s: string): nat
    requires AllDigits(s)
  {
    if s == [] then 0 else DecimalValue(s[..|s| - 1]) * 10 + (s[|s| - 1] as int - '0' as int)
  }

  /** Reading a rendered number back gives the number. */
  lemma {:induction false} DecimalRoundTrip(n: nat)
    ensures DecimalValue(Decimal(n)) == n
  {
    if n >= 10 {
      DecimalRoundTrip(n / 10);
      var r := Decimal(n);
      assert r[..|r| - 1] == Decimal(n / 10);
    }
  }

  // Regrouping helpers: sequence facts stated once, so that a proof can cite each as a
  // single step.

  /** Concatenation is associative. */
  lemma Regroup(a: string, r: string, b: string)
    ensures a + (r + b) == a + r + b
  {
  }

  /** Cutting a string at any point and gluing the halves gives it back. */
  lemma SliceSplit(s: string, k: nat)
    requires k <= |s|
    ensures s == s[..k] + s[k..]
  {
  }

  /** Regrouping a five-piece concatenation. */
  lemma SeqAssoc(a: string, a': string, r: string, b': string, b: string)
    ensures a + (a' + r + b') + b == (a + a') + r + (b' + b)
  {
  }

  /** Gluing after the empty string changes nothing. */
  lemma EmptyHead(a: string, b: string)
    ensures a + b == [] + a + b
  {
  }

  /** A string is the part before position `i`, the character there, and the part after. */
  lemma CutAt(s: string, i: nat)
    requires i < |s|
    ensures s == s[..i] + [s[i]] + s[i + 1..]
  {
  }

  /** A string glued after a prefix is recovered by cutting the prefix off again. */
  lemma PrefixSplits(head: string, t: string)
    ensures (head + t)[..|head|] == head && (head + t)[|head|..] == t
  {
  }

  /** In `p + [sep] + e`, the last `|e|` characters are `e` and the one before them is `sep`. */
  lemma TailAfter(p: string, sep: char, e: string)
    ensures var s := p + [sep] + e; |e| < |s| && s[|s| - |e|..] == e && s[|s| - |e| - 1] == sep
  {
  }
}
