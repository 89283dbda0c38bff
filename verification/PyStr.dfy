/**
 The Python `str` operations the quote parser relies on, over `seq<char>`
 (one `char` per Unicode code point, as Python's `len` counts them).
 */
module PyStr {

  /** The characters for which Python's `str.isspace()` holds; the argument-less
      `strip()` removes exactly these. */
  const Whitespace: set<char> :=
    {'\t', '\n', '\U{B}', '\U{C}', '\r', '\U{1C}', '\U{1D}', '\U{1E}', '\U{1F}', ' ',
     '\U{85}', '\U{A0}', '\U{1680}', '\U{2000}', '\U{2001}', '\U{2002}', '\U{2003}',
     '\U{2004}', '\U{2005}', '\U{2006}', '\U{2007}', '\U{2008}', '\U{2009}', '\U{200A}',
     '\U{2028}', '\U{2029}', '\U{202F}', '\U{205F}', '\U{3000}'}

  /** `s.startswith(p)`. */
  predicate StartsWith(s: string, p: string) {
    |p| <= |s| && s[..|p|] == p
  }

  /** A prefix that does not start with `p` cannot be completed to one that
      does by a character `p` does not contain. */
  lemma NoPrefixAcrossSeparator(pre: string, c: char, rest: string, p: string)
    requires !StartsWith(pre, p) && c !in p
    ensures !StartsWith(pre + [c] + rest, p)
  {
    var s := pre + [c] + rest;
    if |p| <= |s| {
      if |p| <= |pre| {
        assert s[..|p|] == pre[..|p|];
      } else {
        assert s[..|p|][|pre|] == c != p[|pre|];
      }
    }
  }

  /** `s.lstrip(cs)`: drop every leading character that is in `cs`. */
  function LStrip(s: string, cs: set<char>): string {
    s[LeadEnd(s, cs, 0)..]
  }

  /** The index of the first character at or after `i` that is not in `cs`
      (or `|s|`). */
  function LeadEnd(s: string, cs: set<char>, i: nat): (r: nat)
    requires i <= |s|
    ensures i <= r <= |s|
    decreases |s| - i
  {
    if i < |s| && s[i] in cs then LeadEnd(s, cs, i + 1) else i
  }

  /** `s.rstrip(cs)`: drop every trailing character that is in `cs`. */
  function RStrip(s: string, cs: set<char>): string {
    s[..TrailStart(s, cs, |s|)]
  }

  /** The index just past the last character before `n` that is not in `cs`
      (or 0). */
  function TrailStart(s: string, cs: set<char>, n: nat): (r: nat)
    requires n <= |s|
    ensures r <= n
  {
    if n > 0 && s[n - 1] in cs then TrailStart(s, cs, n - 1) else n
  }

  /** Every character skipped by `LeadEnd` is in `cs`, and the one it stops at
      is not. */
  lemma {:induction false} LeadEndSkips(s: string, cs: set<char>, i: nat)
    requires i <= |s|
    ensures var r := LeadEnd(s, cs, i);
      (forall j | i <= j < r :: s[j] in cs) && (r < |s| ==> s[r] !in cs)
    decreases |s| - i
  {
    if i < |s| && s[i] in cs {
      LeadEndSkips(s, cs, i + 1);
    }
  }

  /** Every character skipped by `TrailStart` is in `cs`, and the one before
      where it stops is not. */
  lemma {:induction false} TrailStartSkips(s: string, cs: set<char>, n: nat)
    requires n <= |s|
    ensures var r := TrailStart(s, cs, n);
      (forall j | r <= j < n :: s[j] in cs) && (r > 0 ==> s[r - 1] !in cs)
  {
    if n > 0 && s[n - 1] in cs {
      TrailStartSkips(s, cs, n - 1);
    }
  }

  /** `lstrip` leaves a suffix that does not start with a character of `cs`,
      having removed only characters of `cs`. */
  lemma LStripRemovesPrefix(s: string, cs: set<char>)
    ensures var r := LStrip(s, cs);
      && |r| <= |s| && r == s[|s| - |r|..]
      && (forall j | 0 <= j < |s| - |r| :: s[j] in cs)
      && (r != [] ==> r[0] !in cs)
  {
    LeadEndSkips(s, cs, 0);
  }

  /** `rstrip` leaves a prefix that does not end with a character of `cs`,
      having removed only characters of `cs`. */
  lemma RStripRemovesSuffix(s: string, cs: set<char>)
    ensures var r := RStrip(s, cs);
      && |r| <= |s| && r == s[..|r|]
      && (forall j | |r| <= j < |s| :: s[j] in cs)
      && (r != [] ==> r[|r| - 1] !in cs)
  {
    TrailStartSkips(s, cs, |s|);
  }

  /** `r` is what is left of `s` once the first `i` and the trailing characters
      beyond `r` are removed, all of them in `cs`, and `r` neither starts nor ends
      with a character of `cs`. */
  ghost predicate TrimmedAt(s: string, cs: set<char>, i: int, r: string) {
    && 0 <= i && i + |r| <= |s|
    && r == s[i..i + |r|]
    && (forall j | 0 <= j < i :: s[j] in cs)
    && (forall j | i + |r| <= j < |s| :: s[j] in cs)
    && (r != [] ==> r[0] !in cs && r[|r| - 1] !in cs)
  }

  /** `s.strip(cs)`: drop leading and trailing characters that are in `cs`. */
  function StripChars(s: string, cs: set<char>): string {
    RStrip(LStrip(s, cs), cs)
  }

  /** `s.strip()`. */
  function Strip(s: string): string {
    StripChars(s, Whitespace)
  }

  /** What `strip` leaves is a contiguous part of the string that neither starts
      nor ends with a character of `cs`, and everything removed on either side
      is in `cs`; it is empty exactly when every character is in `cs`. */
  lemma StripCharsTrims(s: string, cs: set<char>)
    ensures exists i :: TrimmedAt(s, cs, i, StripChars(s, cs))
    ensures StripChars(s, cs) == [] <==> forall j | 0 <= j < |s| :: s[j] in cs
  {
    var l := LStrip(s, cs);
    var r := RStrip(l, cs);
    assert r == StripChars(s, cs);
    LStripRemovesPrefix(s, cs);
    RStripRemovesSuffix(l, cs);
    var i := |s| - |l|;
    forall j | i + |r| <= j < |s| ensures s[j] in cs {
      assert s[j] == l[j - i];
    }
    assert TrimmedAt(s, cs, i, r);
    if r != [] {
      assert s[i] == r[0];
    }
  }

  /** Only one string satisfies `TrimmedAt` for a given `s` and `cs`, so the
      contract of `StripChars` pins its result down completely. */
  lemma TrimmedAtUnique(s: string, cs: set<char>, i: int, r: string, i': int, r': string)
    requires TrimmedAt(s, cs, i, r) && TrimmedAt(s, cs, i', r')
    ensures r == r'
  {
    if r != [] {
      assert s[i] == r[0] && s[i + |r| - 1] == r[|r| - 1];
    }
    if r' != [] {
      assert s[i'] == r'[0] && s[i' + |r'| - 1] == r'[|r'| - 1];
    }
  }

  /** Stripping twice removes nothing more than stripping once. */
  lemma StripCharsIdempotent(s: string, cs: set<char>)
    ensures StripChars(StripChars(s, cs), cs) == StripChars(s, cs)
  {
    var r := StripChars(s, cs);
    StripCharsTrims(s, cs);
    StripCharsTrims(r, cs);
    var i0 :| TrimmedAt(s, cs, i0, r);
    assert TrimmedAt(r, cs, 0, r);
    var i :| TrimmedAt(r, cs, i, StripChars(r, cs));
    TrimmedAtUnique(r, cs, 0, r, i, StripChars(r, cs));
  }

  /** A string that neither starts nor ends with a character of `cs` is left
      unchanged by `lstrip`, `rstrip` and `strip`. */
  lemma StripCharsNoop(s: string, cs: set<char>)
    requires s != [] ==> s[0] !in cs && s[|s| - 1] !in cs
    ensures LStrip(s, cs) == s && RStrip(s, cs) == s && StripChars(s, cs) == s
  {
    StripCharsTrims(s, cs);
    assert TrimmedAt(s, cs, 0, s);
    var i :| TrimmedAt(s, cs, i, StripChars(s, cs));
    TrimmedAtUnique(s, cs, 0, s, i, StripChars(s, cs));
  }

  /** Stripping `pre + core + post`, where `pre` and `post` consist of
      characters of `cs` and `core` neither starts nor ends with one, gives
      `core`. */
  lemma StripCharsFrame(pre: string, core: string, post: string, cs: set<char>)
    requires forall j | 0 <= j < |pre| :: pre[j] in cs
    requires forall j | 0 <= j < |post| :: post[j] in cs
    requires core != [] ==> core[0] !in cs && core[|core| - 1] !in cs
    ensures StripChars(pre + core + post, cs) == core
  {
    var s := pre + core + post;
    assert s[|pre|..|pre| + |core|] == core;
    forall j | 0 <= j < |pre| ensures s[j] in cs { assert s[j] == pre[j]; }
    forall j | |pre| + |core| <= j < |s| ensures s[j] in cs { assert s[j] == post[j - |pre| - |core|]; }
    assert TrimmedAt(s, cs, |pre|, core);
    StripCharsTrims(s, cs);
    var i :| TrimmedAt(s, cs, i, StripChars(s, cs));
    TrimmedAtUnique(s, cs, i, StripChars(s, cs), |pre|, core);
  }

  /** `c in s`, as the index of the first occurrence: `s.find(c)`. */
  function Find(s: string, c: char): (r: int)
    ensures -1 <= r < |s|
    ensures r == -1 <==> c !in s
    ensures r >= 0 ==> s[r] == c && forall j | 0 <= j < r :: s[j] != c
  {
    FindFrom(s, c, 0)
  }

  /** The first occurrence of `c` at or after index `i`, or -1. */
  function FindFrom(s: string, c: char, i: nat): (r: int)
    requires i <= |s|
    ensures r == -1 || i <= r < |s|
    ensures r == -1 <==> forall j | i <= j < |s| :: s[j] != c
    ensures r >= 0 ==> s[r] == c && forall j | i <= j < r :: s[j] != c
    decreases |s| - i
  {
    if i == |s| then -1
    else if s[i] == c then i
    else FindFrom(s, c, i + 1)
  }

  /** `s.rfind(c)`: the index of the last occurrence, or -1. */
  function RFind(s: string, c: char): (r: int)
    ensures -1 <= r < |s|
    ensures r == -1 <==> c !in s
    ensures r >= 0 ==> s[r] == c && forall j | r < j < |s| :: s[j] != c
  {
    FindBefore(s, c, |s|)
  }

  /** The last occurrence of `c` before index `n`, or -1. */
  function FindBefore(s: string, c: char, n: nat): (r: int)
    requires n <= |s|
    ensures -1 <= r < n
    ensures r == -1 <==> forall j | 0 <= j < n :: s[j] != c
    ensures r >= 0 ==> s[r] == c && forall j | r < j < n :: s[j] != c
  {
    if n == 0 then -1
    else if s[n - 1] == c then n - 1
    else FindBefore(s, c, n - 1)
  }

  /** The first occurrence of `c` is just after a prefix that lacks it. */
  lemma FindAfterPrefix(a: string, c: char, b: string)
    requires c !in a
    ensures Find(a + [c] + b, c) == |a|
  {
    var s := a + [c] + b;
    assert s[|a|] == c;
    forall j | 0 <= j < |a| ensures s[j] != c { assert s[j] == a[j]; }
  }

  /** The last occurrence of `c` is just before a suffix that lacks it. */
  lemma RFindBeforeSuffix(a: string, c: char, b: string)
    requires c !in b
    ensures RFind(a + [c] + b, c) == |a|
  {
    var s := a + [c] + b;
    assert s[|a|] == c;
    forall j | |a| < j < |s| ensures s[j] != c { assert s[j] == b[j - |a| - 1]; }
  }

  /** The first and last occurrence of `c` differ exactly when `c` occurs at
      least twice. */
  lemma FindRFindCount(s: string, c: char)
    ensures Find(s, c) < RFind(s, c) <==> multiset(s)[c] >= 2
    ensures Find(s, c) == RFind(s, c) >= 0 <==> multiset(s)[c] == 1
  {
    var i, j := Find(s, c), RFind(s, c);
    if i == -1 {
      assert c !in multiset(s);
    } else {
      CountAfterFirst(s, c);
      if i == j {
        NoneAfterLast(s, c);
      } else {
        assert s[i + 1..][j - i - 1] == c;
      }
    }
  }

  /** Every occurrence of `c` but the first lies after the first. */
  lemma CountAfterFirst(s: string, c: char)
    requires c in s
    ensures multiset(s)[c] == 1 + multiset(s[Find(s, c) + 1..])[c]
  {
    var i := Find(s, c);
    assert s == s[..i] + [s[i]] + s[i + 1..];
    assert c !in s[..i];
  }

  /** No occurrence of `c` follows the last one. */
  lemma NoneAfterLast(s: string, c: char)
    requires c in s
    ensures c !in s[RFind(s, c) + 1..]
  {
    var t := s[RFind(s, c) + 1..];
    forall k | 0 <= k < |t| ensures t[k] != c {
      assert t[k] == s[RFind(s, c) + 1 + k];
    }
  }

  /** `s.split(sep)` for a non-empty separator: the pieces between the
      non-overlapping occurrences of `sep`, scanned left to right. */
  function Split(s: string, sep: string): (r: seq<string>)
    requires |sep| > 0
    ensures |r| >= 1
    decreases |s|
  {
    if StartsWith(s, sep) then [[]] + Split(s[|sep|..], sep)
    else if |s| == 0 then [[]]
    else
      var t := Split(s[1..], sep);
      [[s[0]] + t[0]] + t[1..]
  }

  /** `sep.join(pieces)`. */
  function Join(pieces: seq<string>, sep: string): string {
    if |pieces| == 0 then []
    else if |pieces| == 1 then pieces[0]
    else pieces[0] + sep + Join(pieces[1..], sep)
  }

  /** Joining the pieces of a split with the same separator gives back the
      original string. */
  lemma {:induction false} SplitJoin(s: string, sep: string)
    requires |sep| > 0
    ensures Join(Split(s, sep), sep) == s
    decreases |s|
  {
    if StartsWith(s, sep) {
      var rest := s[|sep|..];
      SplitJoin(rest, sep);
      JoinConsEmpty(Split(rest, sep), sep);
      assert s == sep + rest;
    } else if |s| > 0 {
      var t := Split(s[1..], sep);
      SplitJoin(s[1..], sep);
      JoinConsHead(s[0], t, sep);
      assert s == [s[0]] + s[1..];
    }
  }

  /** An empty first piece contributes only the separator that follows it. */
  lemma JoinConsEmpty(t: seq<string>, sep: string)
    requires |t| >= 1
    ensures Join([[]] + t, sep) == sep + Join(t, sep)
  {
    assert ([[]] + t)[1..] == t;
  }

  /** Prepending a character to the first piece prepends it to the join. */
  lemma JoinConsHead(c: char, t: seq<string>, sep: string)
    requires |t| >= 1
    ensures Join([[c] + t[0]] + t[1..], sep) == [c] + Join(t, sep)
  {
    var u := [[c] + t[0]] + t[1..];
    assert u[1..] == t[1..];
  }

  /** With a one-character separator no piece of the split contains it. */
  lemma {:induction false} SplitPiecesAvoidSep(s: string, c: char)
    ensures forall k | 0 <= k < |Split(s, [c])| :: c !in Split(s, [c])[k]
    decreases |s|
  {
    var r := Split(s, [c]);
    if StartsWith(s, [c]) {
      SplitPiecesAvoidSep(s[1..], c);
      assert forall k | 1 <= k < |r| :: r[k] == Split(s[1..], [c])[k - 1];
    } else if |s| == 0 {
    } else {
      SplitPiecesAvoidSep(s[1..], c);
      assert s[0] != c;
    }
  }

  /** Without the separator there is nothing to split. */
  lemma {:induction false} SplitWithoutSep(s: string, c: char)
    requires c !in s
    ensures Split(s, [c]) == [s]
    decreases |s|
  {
    if |s| > 0 {
      assert !StartsWith(s, [c]) by { assert s[0] != c; }
      SplitWithoutSep(s[1..], c);
      assert s == [s[0]] + s[1..];
    }
  }

  /** The first piece ends at the first separator. */
  lemma {:induction false} SplitAtSep(a: string, c: char, b: string)
    requires c !in a
    ensures Split(a + [c] + b, [c]) == [a] + Split(b, [c])
    decreases |a|
  {
    var s := a + [c] + b;
    if |a| == 0 {
      assert StartsWith(s, [c]) && s[1..] == b;
    } else {
      assert !StartsWith(s, [c]) by { assert s[0] == a[0] != c; }
      assert s[1..] == a[1..] + [c] + b;
      SplitAtSep(a[1..], c, b);
      assert a == [a[0]] + a[1..];
    }
  }

  /** `s.replace(pat, rep)` for a non-empty pattern: every non-overlapping
      occurrence of `pat`, scanned left to right, becomes `rep`. */
  function Replace(s: string, pat: string, rep: string): (r: string)
    requires |pat| > 0
    decreases |s|
  {
    if StartsWith(s, pat) then rep + Replace(s[|pat|..], pat, rep)
    else if |s| == 0 then []
    else [s[0]] + Replace(s[1..], pat, rep)
  }

  /** Python's identity `s.replace(p, r) == r.join(s.split(p))`: replacing is
      splitting on the pattern and joining with the replacement. */
  lemma {:induction false} ReplaceIsJoinOfSplit(s: string, pat: string, rep: string)
    requires |pat| > 0
    ensures Replace(s, pat, rep) == Join(Split(s, pat), rep)
    decreases |s|
  {
    if StartsWith(s, pat) {
      ReplaceIsJoinOfSplit(s[|pat|..], pat, rep);
    } else if |s| == 0 {
    } else {
      ReplaceIsJoinOfSplit(s[1..], pat, rep);
      JoinConsHead(s[0], Split(s[1..], pat), rep);
    }
  }

  /** A leading occurrence is replaced, and the scan continues after it. */
  lemma ReplaceLeading(pat: string, t: string, rep: string)
    requires |pat| > 0
    ensures Replace(pat + t, pat, rep) == rep + Replace(t, pat, rep)
  {
    assert StartsWith(pat + t, pat) && (pat + t)[|pat|..] == t;
  }

  /** `pat` occurs in `s` starting at index `i`. */
  predicate OccursAt(s: string, pat: string, i: int) {
    0 <= i && i + |pat| <= |s| && s[i..i + |pat|] == pat
  }

  /** `pat not in s`. */
  predicate Lacks(s: string, pat: string) {
    forall i | 0 <= i < |s| :: !OccursAt(s, pat, i)
  }

  /** A string in which the pattern never occurs is left unchanged. */
  lemma {:induction false} ReplaceAbsent(s: string, pat: string, rep: string)
    requires |pat| > 0
    requires Lacks(s, pat)
    ensures Replace(s, pat, rep) == s
    decreases |s|
  {
    if |s| > 0 {
      assert !OccursAt(s, pat, 0);
      forall i ensures !OccursAt(s[1..], pat, i) {
        assert !OccursAt(s, pat, i + 1);
        if 0 <= i && i + |pat| <= |s| - 1 {
          assert s[1..][i..i + |pat|] == s[i + 1..i + 1 + |pat|];
        }
      }
      ReplaceAbsent(s[1..], pat, rep);
    }
  }

  /** Text without an occurrence of `pat` starting inside `a` is copied
      unchanged in front of whatever `replace` makes of the rest. */
  lemma {:induction false} ReplaceKeepsUnmatched(a: string, rest: string, pat: string, rep: string)
    requires |pat| > 0
    requires forall i | 0 <= i < |a| :: !OccursAt(a + rest, pat, i)
    ensures Replace(a + rest, pat, rep) == a + Replace(rest, pat, rep)
    decreases |a|
  {
    var s := a + rest;
    if |a| == 0 {
      assert s == rest;
    } else {
      assert s[0] == a[0] && s[1..] == a[1..] + rest;
      assert !StartsWith(s, pat) by { assert !OccursAt(s, pat, 0); }
      assert Replace(s, pat, rep) == [s[0]] + Replace(s[1..], pat, rep);
      forall i | 0 <= i < |a| - 1 ensures !OccursAt(a[1..] + rest, pat, i) {
        assert !OccursAt(s, pat, i + 1);
        if i + |pat| <= |s| - 1 {
          assert s[1..][i..i + |pat|] == s[i + 1..i + 1 + |pat|];
        }
      }
      ReplaceKeepsUnmatched(a[1..], rest, pat, rep);
      assert a == [a[0]] + a[1..];
    }
  }

  /** When `a` lacks `pat`, `rest` is empty or starts with `pat`'s first
      character, and that character does not recur in `pat`, no occurrence of
      `pat` starts inside `a`: one straddling the seam would need the first
      character again. */
  lemma NoOccurrenceAcross(a: string, rest: string, pat: string)
    requires |pat| > 0 && Lacks(a, pat) && pat[0] !in pat[1..]
    requires rest == [] || rest[0] == pat[0]
    ensures forall i | 0 <= i < |a| :: !OccursAt(a + rest, pat, i)
  {
    var s := a + rest;
    forall i | 0 <= i < |a| ensures !OccursAt(s, pat, i) {
      if i + |pat| <= |a| {
        assert a[i..i + |pat|] == s[i..i + |pat|];
        assert !OccursAt(a, pat, i);
      } else if i + |pat| <= |s| {
        var k := |a| - i;
        assert s[i..i + |pat|][k] == s[|a|] == pat[0];
        assert pat[k] == pat[1..][k - 1] != pat[0];
      }
    }
  }

  /** Framing text that lacks `pat` by a prefix without `pat`'s first character
      and a suffix without its last character cannot create an occurrence. */
  lemma LacksFramed(pre: string, mid: string, post: string, pat: string)
    requires |pat| > 0 && Lacks(mid, pat)
    requires pat[0] !in pre && pat[|pat| - 1] !in post
    ensures Lacks(pre + mid + post, pat)
  {
    var s := pre + mid + post;
    forall i | 0 <= i < |s| ensures !OccursAt(s, pat, i) {
      if i + |pat| <= |s| {
        var w := s[i..i + |pat|];
        if i < |pre| {
          assert w[0] == pre[i] != pat[0];
        } else if i + |pat| > |pre| + |mid| {
          assert w[|pat| - 1] == post[i + |pat| - 1 - |pre| - |mid|] != pat[|pat| - 1];
        } else {
          assert mid[i - |pre|..i - |pre| + |pat|] == w;
          assert !OccursAt(mid, pat, i - |pre|);
        }
      }
    }
  }

  /** The number a string of decimal digits denotes, most significant first. */
  function DecimalValue(r: string): nat
    decreases |r|
  {
    if r == [] then 0
    else DecimalValue(r[..|r| - 1]) * 10 + (if '0' <= r[|r| - 1] <= '9' then (r[|r| - 1] - '0') as nat else 0)
  }

  /** A non-empty run of decimal digits without a redundant leading zero. */
  predicate CanonicalDigits(r: string) {
    r != [] && (forall k | 0 <= k < |r| :: '0' <= r[k] <= '9') && (r[0] == '0' ==> |r| == 1)
  }

  /** The decimal digits of a natural number, most significant first: the
      canonical digit string that denotes `n`. */
  function NatToDecimal(n: nat): (r: string)
    ensures CanonicalDigits(r)
    ensures DecimalValue(r) == n
    decreases n
  {
    var d := ['0' + (n % 10) as char];
    if n < 10 then d
    else
      var r := NatToDecimal(n / 10) + d;
      assert r[..|r| - 1] == NatToDecimal(n / 10);
      r
  }

  /** `str(n)` for a Python `int`: a `-` exactly for a negative number, followed
      by the canonical digits of its magnitude. */
  function IntToDecimal(n: int): (r: string)
    ensures r != [] && (r[0] == '-' <==> n < 0)
    ensures n >= 0 ==> CanonicalDigits(r) && DecimalValue(r) == n
    ensures n < 0 ==> CanonicalDigits(r[1..]) && DecimalValue(r[1..]) == -n
  {
    if n >= 0 then NatToDecimal(n) else ['-'] + NatToDecimal(-n)
  }

  /** Different numbers are written differently. */
  lemma IntToDecimalInjective(a: int, b: int)
    ensures IntToDecimal(a) == IntToDecimal(b) ==> a == b
  {
  }
}
