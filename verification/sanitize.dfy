/**
 * Filename sanitisation of the PDF downloader: `re.sub(r'[\\/:"*?<>|]+', "_", name)`.
 * Every maximal run of the nine filesystem-illegal characters becomes one underscore;
 * every other character is kept, in order.
 */
module Sanitizer {
  import opened Seqs

  /** The nine characters of the character class `[\\/:"*?<>|]`. */
  predicate IsForbidden(c: char) {
    c == '\\' || c == '/' || c == ':' || c == '"' || c == '*'
    || c == '?' || c == '<' || c == '>' || c == '|'
  }

  predicate NoForbidden(s: string) {
    forall i :: 0 <= i < |s| ==> !IsForbidden(s[i])
  }

  /** The end of the maximal run of forbidden characters that starts at `i` (`i` itself if there is none). */
  function RunEnd(s: string, i: nat): (j: nat)
    requires i <= |s|
    ensures i <= j <= |s|
    ensures j < |s| ==> !IsForbidden(s[j])
    decreases |s| - i
  {
    if i < |s| && IsForbidden(s[i]) then RunEnd(s, i + 1) else i
  }

  /** Everything between `i` and its run end is forbidden. */
  lemma {:induction false} RunEndIsRun(s: string, i: nat, k: nat)
    requires i <= |s| && i <= k < RunEnd(s, i)
    ensures IsForbidden(s[k])
    decreases |s| - i
  {
    if k > i {
      RunEndIsRun(s, i + 1, k);
    }
  }

  /** A run reaching the end of the string ends there. */
  lemma {:induction false} RunEndOfRun(s: string, i: nat)
    requires i <= |s| && forall k :: i <= k < |s| ==> IsForbidden(s[k])
    ensures RunEnd(s, i) == |s|
    decreases |s| - i
  {
    if i < |s| {
      RunEndOfRun(s, i + 1);
    }
  }

  /**
   * The regular-expression substitution on the part of `s` from `i` on, read left to
   * right: the leftmost match of `[...]+` is a maximal forbidden run, replaced by `_`,
   * and scanning resumes just after it.
   */
  function SanitizeFrom(s: string, i: nat): (r: string)
    requires i <= |s|
    ensures |r| <= |s| - i
    ensures |r| == 0 <==> i == |s|
    decreases |s| - i
  {
    if i == |s| then ""
    else if IsForbidden(s[i]) then "_" + SanitizeFrom(s, RunEnd(s, i))
    else [s[i]] + SanitizeFrom(s, i + 1)
  }

  /** `sanitize_filename`. */
  function Sanitize(s: string): (r: string)
    ensures NoForbidden(r)
    ensures |r| <= |s|
    ensures |r| == 0 <==> |s| == 0
  {
    SanitizeFromClean(s, 0);
    SanitizeFrom(s, 0)
  }

  lemma {:induction false} SanitizeFromClean(s: string, i: nat)
    requires i <= |s|
    ensures NoForbidden(SanitizeFrom(s, i))
    decreases |s| - i
  {
    if i < |s| {
      if IsForbidden(s[i]) {
        SanitizeFromClean(s, RunEnd(s, i));
      } else {
        SanitizeFromClean(s, i + 1);
      }
    }
  }

  /** A string with nothing to replace comes back unchanged. */
  lemma {:induction false} SanitizeFromSafe(s: string, i: nat)
    requires i <= |s| && forall k :: i <= k < |s| ==> !IsForbidden(s[k])
    ensures SanitizeFrom(s, i) == s[i..]
    decreases |s| - i
  {
    if i < |s| {
      SanitizeFromSafe(s, i + 1);
      assert s[i..] == [s[i]] + s[i + 1..];
    }
  }

  lemma SanitizeKeepsSafe(s: string)
    requires NoForbidden(s)
    ensures Sanitize(s) == s
  {
    SanitizeFromSafe(s, 0);
  }

  /** Sanitising is idempotent: its output has nothing left to replace. */
  lemma SanitizeIdempotent(s: string)
    ensures Sanitize(Sanitize(s)) == Sanitize(s)
  {
    SanitizeKeepsSafe(Sanitize(s));
  }

  /** Every character of the output is an underscore or a character of the input. */
  lemma {:induction false} SanitizeKeepsCharacters(s: string, i: nat, c: char)
    requires i <= |s| && c in SanitizeFrom(s, i)
    ensures c == '_' || c in s
    decreases |s| - i
  {
    if IsForbidden(s[i]) {
      if c != '_' {
        SanitizeKeepsCharacters(s, RunEnd(s, i), c);
      }
    } else if c != s[i] {
      SanitizeKeepsCharacters(s, i + 1, c);
    }
  }

  /** A non-empty run made only of forbidden characters collapses to exactly one underscore. */
  lemma SanitizeRun(s: string)
    requires |s| > 0 && forall k :: 0 <= k < |s| ==> IsForbidden(s[k])
    ensures Sanitize(s) == "_"
  {
    RunEndOfRun(s, 0);
  }

  /** Positions in the second half of `p + q` are sanitised as they would be in `q` alone. */
  lemma {:induction false} RunEndShift(p: string, q: string, k: nat)
    requires k <= |q|
    ensures RunEnd(p + q, |p| + k) == |p| + RunEnd(q, k)
    decreases |q| - k
  {
    if k < |q| && IsForbidden(q[k]) {
      assert (p + q)[|p| + k] == q[k];
      RunEndShift(p, q, k + 1);
    } else if k < |q| {
      assert (p + q)[|p| + k] == q[k];
    }
  }

  lemma {:induction false} SanitizeFromShift(p: string, q: string, k: nat)
    requires k <= |q|
    ensures SanitizeFrom(p + q, |p| + k) == SanitizeFrom(q, k)
    decreases |q| - k, 1
  {
    if k < |q| {
      if IsForbidden(q[k]) {
        ShiftRun(p, q, k);
      } else {
        ShiftKeep(p, q, k);
      }
    }
  }

  lemma {:induction false} ShiftRun(p: string, q: string, k: nat)
    requires k < |q| && IsForbidden(q[k])
    ensures SanitizeFrom(p + q, |p| + k) == SanitizeFrom(q, k)
    decreases |q| - k, 0
  {
    var s, j := p + q, RunEnd(q, k);
    assert s[|p| + k] == q[k];
    RunEndShift(p, q, k);
    SanitizeFromShift(p, q, j);
    ShiftRunStep(s, |p| + k, |p| + j);
    ShiftRunStep(q, k, j);
  }

  lemma {:induction false} ShiftKeep(p: string, q: string, k: nat)
    requires k < |q| && !IsForbidden(q[k])
    ensures SanitizeFrom(p + q, |p| + k) == SanitizeFrom(q, k)
    decreases |q| - k, 0
  {
    var s := p + q;
    assert s[|p| + k] == q[k];
    SanitizeFromShift(p, q, k + 1);
    ShiftKeepStep(s, |p| + k);
    ShiftKeepStep(q, k);
  }

  lemma ShiftRunStep(s: string, i: nat, j: nat)
    requires i < |s| && IsForbidden(s[i]) && j == RunEnd(s, i)
    ensures SanitizeFrom(s, i) == "_" + SanitizeFrom(s, j)
  {
  }

  lemma ShiftKeepStep(s: string, i: nat)
    requires i < |s| && !IsForbidden(s[i])
    ensures SanitizeFrom(s, i) == [s[i]] + SanitizeFrom(s, i + 1)
  {
  }

  /** With no run straddling the cut, a run that starts in `a` ends in `a` as well. */
  lemma {:induction false} RunEndConcat(a: string, b: string, i: nat)
    requires i <= |a|
    requires !(|a| > 0 && |b| > 0 && IsForbidden(a[|a| - 1]) && IsForbidden(b[0]))
    requires i == |a| ==> |b| == 0 || !IsForbidden(b[0])
    ensures RunEnd(a + b, i) == RunEnd(a, i)
    decreases |a| - i
  {
    if i < |a| {
      assert (a + b)[i] == a[i];
      if IsForbidden(a[i]) {
        RunEndConcat(a, b, i + 1);
      }
    } else if |b| > 0 {
      assert (a + b)[i] == b[0];
    }
  }

  lemma {:induction false} SanitizeFromConcat(a: string, b: string, i: nat)
    requires i <= |a|
    requires !(|a| > 0 && |b| > 0 && IsForbidden(a[|a| - 1]) && IsForbidden(b[0]))
    ensures SanitizeFrom(a + b, i) == SanitizeFrom(a, i) + Sanitize(b)
    decreases |a| - i, 1
  {
    if i == |a| {
      SanitizeFromShift(a, b, 0);
    } else if IsForbidden(a[i]) {
      ConcatRun(a, b, i);
    } else {
      ConcatKeep(a, b, i);
    }
  }

  lemma {:induction false} ConcatRun(a: string, b: string, i: nat)
    requires i < |a| && IsForbidden(a[i])
    requires !(|a| > 0 && |b| > 0 && IsForbidden(a[|a| - 1]) && IsForbidden(b[0]))
    ensures SanitizeFrom(a + b, i) == SanitizeFrom(a, i) + Sanitize(b)
    decreases |a| - i, 0
  {
    var s, j := a + b, RunEnd(a, i);
    assert s[i] == a[i];
    RunEndConcat(a, b, i);
    SanitizeFromConcat(a, b, j);
    ShiftRunStep(s, i, j);
    ShiftRunStep(a, i, j);
    AppendAssoc("_", SanitizeFrom(a, j), Sanitize(b));
  }

  lemma {:induction false} ConcatKeep(a: string, b: string, i: nat)
    requires i < |a| && !IsForbidden(a[i])
    requires !(|a| > 0 && |b| > 0 && IsForbidden(a[|a| - 1]) && IsForbidden(b[0]))
    ensures SanitizeFrom(a + b, i) == SanitizeFrom(a, i) + Sanitize(b)
    decreases |a| - i, 0
  {
    var s := a + b;
    assert s[i] == a[i];
    SanitizeFromConcat(a, b, i + 1);
    ShiftKeepStep(s, i);
    ShiftKeepStep(a, i);
    AppendAssoc([a[i]], SanitizeFrom(a, i + 1), Sanitize(b));
  }

  /**
   * Sanitising distributes over concatenation whenever the cut does not split a run of
   * forbidden characters. With SanitizeRun and SanitizeKeepsSafe this determines the
   * whole function.
   */
  lemma SanitizeConcat(a: string, b: string)
    requires !(|a| > 0 && |b| > 0 && IsForbidden(a[|a| - 1]) && IsForbidden(b[0]))
    ensures Sanitize(a + b) == Sanitize(a) + Sanitize(b)
  {
    SanitizeFromConcat(a, b, 0);
  }

  lemma ScanRun(s: string, i: nat, j: nat, r: string)
    requires i < |s| && IsForbidden(s[i]) && i <= j <= |s| && j == RunEnd(s, i)
    ensures r + SanitizeFrom(s, i) == (r + "_") + SanitizeFrom(s, j)
  {
    AppendAssoc(r, "_", SanitizeFrom(s, j));
  }

  lemma ScanKeep(s: string, i: nat, r: string)
    requires i < |s| && !IsForbidden(s[i])
    ensures r + SanitizeFrom(s, i) == (r + [s[i]]) + SanitizeFrom(s, i + 1)
  {
    AppendAssoc(r, [s[i]], SanitizeFrom(s, i + 1));
  }

  /** The scan a regular-expression engine performs: find the next run, replace it, resume after it. */
  method SanitizeScan(s: string) returns (r: string)
    ensures r == Sanitize(s)
  {
    r := "";
    var i := 0;
    while i < |s|
      invariant 0 <= i <= |s|
      invariant r + SanitizeFrom(s, i) == Sanitize(s)
    {
      if IsForbidden(s[i]) {
        var j := i + 1;
        while j < |s| && IsForbidden(s[j])
          invariant i < j <= |s|
          invariant RunEnd(s, j) == RunEnd(s, i)
        {
          j := j + 1;
        }
        ScanRun(s, i, j, r);
        r := r + "_";
        i := j;
      } else {
        ScanKeep(s, i, r);
        r := r + [s[i]];
        i := i + 1;
      }
    }
  }
}
