/** The few `java.lang.String` / `StringUtil` operations the core relies on:
    `trim`, blankness and `equalsIgnoreCase`. */
module JavaText {
  import opened Wrappers

  /** `String.trim` removes every leading and trailing character whose code is at most U+0020. */
  predicate IsTrimmable(c: char) {
    c <= ' '
  }

  /** `String.trim`: drops trimmable characters from both ends. */
  function Trim(s: string): (r: string)
    ensures |r| <= |s|
    ensures |r| == 0 || (!IsTrimmable(r[0]) && !IsTrimmable(r[|r| - 1]))
    ensures |r| == 0 <==> forall i :: 0 <= i < |s| ==> IsTrimmable(s[i])
    decreases |s|
  {
    if |s| > 0 && IsTrimmable(s[0]) then Trim(s[1..])
    else if |s| > 0 && IsTrimmable(s[|s| - 1]) then Trim(s[..|s| - 1])
    else s
  }

  /** Every character of `s` is trimmable. */
  predicate AllTrimmable(s: string) {
    forall k :: 0 <= k < |s| ==> IsTrimmable(s[k])
  }

  lemma AllTrimmableConcat(a: string, b: string)
    requires AllTrimmable(a) && AllTrimmable(b)
    ensures AllTrimmable(a + b)
  {
    forall k | 0 <= k < |a + b| ensures IsTrimmable((a + b)[k]) {
      if k < |a| { assert (a + b)[k] == a[k]; } else { assert (a + b)[k] == b[k - |a|]; }
    }
  }

  /** How many characters `trim` cuts off the front. */
  function TrimStart(s: string): nat
    decreases |s|
  {
    if |s| > 0 && IsTrimmable(s[0]) then TrimStart(s[1..]) + 1
    else if |s| > 0 && IsTrimmable(s[|s| - 1]) then TrimStart(s[..|s| - 1])
    else 0
  }

  /** `t` is `s` with `i` characters cut off the front and the rest cut off the
      back, and everything cut off is trimmable. */
  predicate TrimmedAt(s: string, t: string, i: int) {
    && 0 <= i && i + |t| <= |s|
    && t == s[i..i + |t|]
    && AllTrimmable(s[..i])
    && AllTrimmable(s[i + |t|..])
  }

  /** Cutting one more trimmable character off the front. */
  lemma TrimmedAtFront(s: string, t: string, i: int)
    requires |s| > 0 && IsTrimmable(s[0]) && TrimmedAt(s[1..], t, i)
    ensures TrimmedAt(s, t, i + 1)
  {
    var u := s[1..];
    assert s[i + 1..i + 1 + |t|] == u[i..i + |t|];
    assert s[..i + 1] == [s[0]] + u[..i];
    assert AllTrimmable([s[0]]);
    AllTrimmableConcat([s[0]], u[..i]);
    assert s[i + 1 + |t|..] == u[i + |t|..];
  }

  /** Cutting one more trimmable character off the back. */
  lemma TrimmedAtBack(s: string, t: string, i: int)
    requires |s| > 0 && IsTrimmable(s[|s| - 1]) && TrimmedAt(s[..|s| - 1], t, i)
    ensures TrimmedAt(s, t, i)
  {
    var u := s[..|s| - 1];
    assert s[i..i + |t|] == u[i..i + |t|];
    assert s[..i] == u[..i];
    assert s[i + |t|..] == u[i + |t|..] + [s[|s| - 1]];
    assert AllTrimmable([s[|s| - 1]]);
    AllTrimmableConcat(u[i + |t|..], [s[|s| - 1]]);
  }

  /** `trim` keeps a contiguous part of the string and removes only trimmable
      characters, from the two ends. */
  lemma {:induction false} TrimCutsEnds(s: string)
    ensures TrimmedAt(s, Trim(s), TrimStart(s))
    decreases |s|
  {
    if |s| > 0 && IsTrimmable(s[0]) {
      TrimCutsEnds(s[1..]);
      TrimmedAtFront(s, Trim(s[1..]), TrimStart(s[1..]));
    } else if |s| > 0 && IsTrimmable(s[|s| - 1]) {
      TrimCutsEnds(s[..|s| - 1]);
      TrimmedAtBack(s, Trim(s[..|s| - 1]), TrimStart(s[..|s| - 1]));
    } else {
      assert s[0..|s|] == s;
      assert s[|s|..] == [];
    }
  }

  /** Trimming is idempotent. */
  lemma TrimIdempotent(s: string)
    ensures Trim(Trim(s)) == Trim(s)
  {
    var t := Trim(s);
    if |t| > 0 {
      TrimOfTrimmed(t);
    }
  }

  /** A string that starts and ends with a visible character is its own trim. */
  lemma TrimOfTrimmed(s: string)
    requires |s| > 0 && !IsTrimmable(s[0]) && !IsTrimmable(s[|s| - 1])
    ensures Trim(s) == s
  {
  }

  /** `%s` of a possibly null string. */
  function Shown(s: Option<string>): string {
    if s.Some? then s.value else "null"
  }

  /** `StringUtil.isNullOrBlank`: null, empty, or only trimmable characters. */
  predicate IsNullOrBlank(s: Option<string>) {
    s.None? || |Trim(s.value)| == 0
  }

  /** `StringUtil.isNullOrEmpty`. */
  predicate IsNullOrEmpty(s: Option<string>) {
    s.None? || |s.value| == 0
  }

  /** `Character.toUpperCase`, restricted to ASCII letters. */
  function ToUpper(c: char): char {
    if 'a' <= c <= 'z' then (c as int - 32) as char else c
  }

  /** `Character.toLowerCase`, restricted to ASCII letters. */
  function ToLower(c: char): char {
    if 'A' <= c <= 'Z' then (c as int + 32) as char else c
  }

  /** The character comparison `String.equalsIgnoreCase` applies position by position. */
  predicate CharEqualsIgnoreCase(a: char, b: char) {
    a == b || ToUpper(a) == ToUpper(b) || ToLower(ToUpper(a)) == ToLower(ToUpper(b))
  }

  /** `String.equalsIgnoreCase`: same length and every position equal up to case. */
  predicate EqualsIgnoreCase(a: string, b: string) {
    |a| == |b| && forall i :: 0 <= i < |a| ==> CharEqualsIgnoreCase(a[i], b[i])
  }

  /** Equal strings are equal up to case, so a case-insensitive duplicate check
      also rejects exact duplicates. */
  lemma EqualsIgnoreCaseReflexive(a: string)
    ensures EqualsIgnoreCase(a, a)
  {
  }

  /** "Alpha" and "alpha" are the same name to `equalsIgnoreCase`, but differ as map keys. */
  lemma AlphaEqualsIgnoreCase()
    ensures EqualsIgnoreCase("Alpha", "alpha") && "Alpha" != "alpha"
  {
    assert CharEqualsIgnoreCase('A', 'a');
  }
}
