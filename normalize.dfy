/** Whitespace trimming of keys and values (trimSpaces in hash.c). Strings are
    modelled as their characters up to the terminating NUL. */
module Normalize {
  import opened Wrappers

  /** The characters `isspace` accepts in the "C" locale. */
  predicate IsSpace(c: char)
  {
    c == ' ' || c == '\t' || c == '\n' || c == '\U{000B}' || c == '\U{000C}' || c == '\r'
  }

  /** Every character of `s` at a position in [lo, hi) is whitespace. */
  predicate SpaceBetween(s: string, lo: int, hi: int)
  {
    forall i :: lo <= i < hi && 0 <= i < |s| ==> IsSpace(s[i])
  }

  predicate AllSpace(s: string)
  {
    SpaceBetween(s, 0, |s|)
  }

  /** Length of the maximal run of whitespace at the front of `s`. */
  function LeadingSpaces(s: string): (n: nat)
    ensures n <= |s|
    ensures SpaceBetween(s, 0, n)
    ensures n < |s| ==> !IsSpace(s[n])
  {
    if s != [] && IsSpace(s[0]) then 1 + LeadingSpaces(s[1..]) else 0
  }

  /** Length of the maximal run of whitespace at the back of `s`. */
  function TrailingSpaces(s: string): (n: nat)
    ensures n <= |s|
    ensures SpaceBetween(s, |s| - n, |s|)
    ensures n < |s| ==> !IsSpace(s[|s| - n - 1])
  {
    if s != [] && IsSpace(s[|s| - 1]) then 1 + TrailingSpaces(s[..|s| - 1]) else 0
  }

  /** `s` with its leading and its trailing whitespace run removed. */
  function Trim(s: string): string
  {
    var t := s[LeadingSpaces(s)..];
    t[..|t| - TrailingSpaces(t)]
  }

  /** A string with no whitespace at either end. */
  predicate Trimmed(s: string)
  {
    s == [] || (!IsSpace(s[0]) && !IsSpace(s[|s| - 1]))
  }

  /** The trimmed string neither starts nor ends with whitespace. */
  lemma TrimIsTrimmed(s: string)
    ensures Trimmed(Trim(s))
  {
    var t := s[LeadingSpaces(s)..];
    var r := Trim(s);
    if r != [] {
      assert r[0] == t[0] == s[LeadingSpaces(s)];
      assert r[|r| - 1] == t[|t| - TrailingSpaces(t) - 1];
    }
  }

  /** Reference characterisation: cutting `s` into a whitespace run, a middle
      part with non-whitespace ends, and a whitespace run yields Trim(s); so
      the interior characters are exactly those of `s` between the two runs. */
  lemma TrimUnique(s: string, a: nat, b: nat)
    requires a <= b <= |s|
    requires SpaceBetween(s, 0, a) && SpaceBetween(s, b, |s|)
    requires a < b ==> !IsSpace(s[a]) && !IsSpace(s[b - 1])
    ensures Trim(s) == s[a..b]
  {
    var n := LeadingSpaces(s);
    if a < b {
      assert n == a;
      var t := s[a..];
      var m := TrailingSpaces(t);
      assert forall i :: 0 <= i < |t| ==> t[i] == s[a + i];
      assert |t| - m == b - a;
    } else {
      assert AllSpace(s);
      assert n == |s|;
    }
  }

  /** A string with no whitespace at either end is its own trimmed form. */
  lemma TrimOfTrimmed(s: string)
    requires Trimmed(s)
    ensures Trim(s) == s
  {
    TrimUnique(s, 0, |s|);
  }

  /** Trimming twice is trimming once, so the repeated trimSpaces calls
      along set, getIndex and generateEntry do not change the key again. */
  lemma TrimIdempotent(s: string)
    ensures Trim(Trim(s)) == Trim(s)
  {
    var r := Trim(s);
    TrimIsTrimmed(s);
    TrimUnique(r, 0, |r|);
  }

  /** Trim(s) is empty exactly when `s` is empty or all whitespace. */
  lemma TrimEmptyIff(s: string)
    ensures Trim(s) == [] <==> AllSpace(s)
  {
    var n := LeadingSpaces(s);
    var t := s[n..];
    var m := TrailingSpaces(t);
    assert forall i :: 0 <= i < |t| ==> t[i] == s[n + i];
    if !AllSpace(s) {
      assert n < |s|;
      assert m < |t|;
    }
  }

  /** trimSpaces (hash.c:23-44): NULL in, NULL out; otherwise the first loop
      skips the leading whitespace and the second drops the trailing
      whitespace. The second loop stops at length 0, where the code as
      written goes on reading before the string (see TrailingScanAsWritten). */
  method TrimSpaces(toTrim: Option<string>) returns (trimmed: Option<string>)
    ensures toTrim.None? <==> trimmed.None?
    ensures toTrim.Some? ==> trimmed == Some(Trim(toTrim.value))
    ensures toTrim.Some? ==> Trimmed(trimmed.value)
  {
    if toTrim.None? {
      return None;
    }
    var s := toTrim.value;
    var length := |s|;
    var start := 0;
    while start < |s| && IsSpace(s[start])
      invariant 0 <= start <= |s|
      invariant length == |s| - start
      invariant SpaceBetween(s, 0, start)
    {
      start := start + 1;
      length := length - 1;
    }
    while length > 0 && IsSpace(s[start + length - 1])
      invariant 0 <= length <= |s| - start
      invariant SpaceBetween(s, start + length, |s|)
    {
      length := length - 1;
    }
    if length == 0 {
      TrimUnique(s, start, start);
    } else {
      TrimUnique(s, start, start + length);
    }
    trimmed := Some(s[start..start + length]);
    TrimIsTrimmed(s);
  }

  /** The second loop of trimSpaces as written (hash.c:36-39), over positions
      of the original string: starting from `end` it steps back while the
      character before `end` is whitespace. None means the next read falls
      before the first character (toTrim[-1]); Some(e) is where it stops. */
  function TrailingScanAsWritten(s: string, end: nat): (r: Option<nat>)
    requires end <= |s|
    ensures r.Some? ==> 0 < r.value <= end && !IsSpace(s[r.value - 1])
    ensures r.Some? ==> SpaceBetween(s, r.value, end)
    ensures r.None? <==> SpaceBetween(s, 0, end)
  {
    if end == 0 then None
    else if IsSpace(s[end - 1]) then TrailingScanAsWritten(s, end - 1)
    else Some(end)
  }

  /** The unguarded scan stays inside the string exactly when the string has
      a non-whitespace character, and there it stops where Trim ends. */
  lemma TrailingScanAsWrittenAgrees(s: string)
    ensures TrailingScanAsWritten(s, |s|).None? <==> AllSpace(s)
    ensures !AllSpace(s) ==>
              var e := TrailingScanAsWritten(s, |s|).value;
              LeadingSpaces(s) < e && Trim(s) == s[LeadingSpaces(s)..e]
  {
    if !AllSpace(s) {
      var e := TrailingScanAsWritten(s, |s|).value;
      var a := LeadingSpaces(s);
      assert a < e;
      TrimUnique(s, a, e);
    }
  }

  /** Empty and all-whitespace inputs, as in a key "" or a value "   ":
      the code as written reads toTrim[-1]. */
  lemma TrimAsWrittenReadsBeforeString()
    ensures TrailingScanAsWritten("", 0).None?
    ensures TrailingScanAsWritten("  ", 2).None?
  {
    assert IsSpace("  "[0]) && IsSpace("  "[1]);
  }
}
