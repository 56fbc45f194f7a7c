/** `find_failed_logins`: a bounded, early-stopping sample of the lines that
    mention "failed" in any letter case. */
module FailedLogins {
  import opened AsciiText

  /** The line, lower-cased, contains "failed". */
  predicate LooksFailed(line: string) {
    Contains(Lower(line), "failed")
  }

  /** The stripped forms of all lines that look failed, in file order. */
  function FailedLines(lines: seq<string>): (r: seq<string>)
    ensures |r| <= |lines|
  {
    if lines == [] then []
    else FailedLines(lines[..|lines| - 1])
         + (if LooksFailed(lines[|lines| - 1]) then [Strip(lines[|lines| - 1])] else [])
  }

  /** The length check runs only after an append, so the sample holds at least
      one line whenever one matches, even for a limit of 0 or less. */
  function Bound(limit: int): (n: nat)
    ensures 1 <= n && limit <= n && (n == 1 || n == limit)
  {
    if limit <= 0 then 1 else limit
  }

  /** The first n entries of FailedLines(lines), or all of them if fewer. */
  function FirstFailed(lines: seq<string>, n: nat): (r: seq<string>)
    ensures |r| <= n && |r| <= |FailedLines(lines)| && r == FailedLines(lines)[..|r|]
    ensures |r| < n ==> r == FailedLines(lines)
  {
    var all := FailedLines(lines);
    all[..if |all| < n then |all| else n]
  }

  lemma {:induction false} FailedLinesAppend(a: seq<string>, b: seq<string>)
    ensures FailedLines(a + b) == FailedLines(a) + FailedLines(b)
  {
    if b == [] {
      assert a + b == a;
    } else {
      var n := |b| - 1;
      FailedLinesAppend(a, b[..n]);
      var ab := a + b;
      assert ab[..|ab| - 1] == a + b[..n] && ab[|ab| - 1] == b[n];
      var last := if LooksFailed(b[n]) then [Strip(b[n])] else [];
      assert FailedLines(ab) == FailedLines(a + b[..n]) + last;
      assert FailedLines(b) == FailedLines(b[..n]) + last;
    }
  }

  /** Each sampled entry is the stripped form of a line that looks failed, so
      it has no surrounding whitespace. */
  lemma {:induction false} FailedLinesFromLines(lines: seq<string>, k: nat)
    requires k < |FailedLines(lines)|
    ensures exists j :: 0 <= j < |lines| && LooksFailed(lines[j]) && FailedLines(lines)[k] == Strip(lines[j])
    ensures FailedLines(lines)[k] != [] ==> !IsSpace(FailedLines(lines)[k][0])
  {
    var n := |lines| - 1;
    var init := FailedLines(lines[..n]);
    if k < |init| {
      FailedLinesFromLines(lines[..n], k);
      var j :| 0 <= j < n && LooksFailed(lines[..n][j]) && init[k] == Strip(lines[..n][j]);
      assert lines[j] == lines[..n][j];
    } else {
      assert LooksFailed(lines[n]) && FailedLines(lines)[k] == Strip(lines[n]);
    }
  }

  /** Indices of the lines that look failed. */
  function FailedIndices(lines: seq<string>): set<nat> {
    set j: nat | j < |lines| && LooksFailed(lines[j])
  }

  /** There is one sampled entry per line that looks failed. */
  lemma {:induction false} FailedLinesCount(lines: seq<string>)
    ensures |FailedLines(lines)| == |FailedIndices(lines)|
  {
    if lines == [] {
      assert FailedIndices(lines) == {};
    } else {
      var n := |lines| - 1;
      FailedLinesCount(lines[..n]);
      assert forall j: nat | j < n :: lines[..n][j] == lines[j];
      if LooksFailed(lines[n]) {
        assert FailedIndices(lines) == FailedIndices(lines[..n]) + {n};
      } else {
        assert FailedIndices(lines) == FailedIndices(lines[..n]);
      }
    }
  }

  /** A scan that stopped after line i holds the first b entries, or all of
      them when it reached the end of the lines. */
  lemma {:induction false} StoppedScanIsFirstFailed(lines: seq<string>, i: nat, b: nat)
    requires i <= |lines|
    requires |FailedLines(lines[..i])| <= b
    requires i < |lines| ==> |FailedLines(lines[..i])| == b
    ensures FailedLines(lines[..i]) == FirstFailed(lines, b)
  {
    FailedLinesAppend(lines[..i], lines[i..]);
    assert lines[..i] + lines[i..] == lines;
  }

  /** find_failed_logins: scans the lines in order, appends the stripped line
      whenever it looks failed, and stops as soon as the sample has reached the
      limit. `examined` is the number of lines looked at. The result is the
      first min(Bound(limit), k) entries of FailedLines(lines), k being the
      number of lines that look failed; scanning stops right after the line
      that completed the sample, so nothing after it is examined. */
  method FindFailedLogins(lines: seq<string>, limit: int) returns (failed: seq<string>, ghost examined: nat)
    ensures examined <= |lines|
    ensures failed == FailedLines(lines[..examined])
    ensures examined < |lines| ==> |failed| == Bound(limit)
    ensures |failed| == Bound(limit) ==> 0 < examined && LooksFailed(lines[examined - 1])
    ensures |failed| <= Bound(limit)
    ensures failed == FirstFailed(lines, Bound(limit))
    ensures limit <= 0 ==> |failed| <= 1 && (failed == [] <==> FailedLines(lines) == [])
  {
    failed := [];
    var i := 0;
    while i < |lines|
      invariant 0 <= i <= |lines|
      invariant failed == FailedLines(lines[..i])
      invariant |failed| < Bound(limit)
    {
      assert lines[..i + 1][..i] == lines[..i];
      var line := lines[i];
      if Contains(Lower(line), "failed") {
        failed := failed + [Strip(line)];
        if |failed| >= limit {
          i := i + 1;
          break;
        }
      }
      i := i + 1;
    }
    examined := i;
    StoppedScanIsFirstFailed(lines, i, Bound(limit));
  }

  /** As written, a limit of 0 still yields one line: the docstring's "up to
      `limit` lines" is not met. */
  lemma ZeroLimitStillSamplesOneLine()
    ensures |FirstFailed(["failed"], Bound(0))| == 1
  {
  }

  /** find_failed_logins with the length check made before each line, so that
      the sample never exceeds the limit: the first min(limit, k) matching
      lines, none at all for a limit of 0 or less. */
  method FindFailedLoginsUpToLimit(lines: seq<string>, limit: int) returns (failed: seq<string>)
    ensures |failed| <= if limit <= 0 then 0 else limit
    ensures failed == FirstFailed(lines, if limit <= 0 then 0 else limit)
  {
    failed := [];
    var i := 0;
    while i < |lines| && |failed| < limit
      invariant 0 <= i <= |lines|
      invariant failed == FailedLines(lines[..i])
      invariant |failed| <= if limit <= 0 then 0 else limit
    {
      assert lines[..i + 1][..i] == lines[..i];
      var line := lines[i];
      if Contains(Lower(line), "failed") {
        failed := failed + [Strip(line)];
      }
      i := i + 1;
    }
    StoppedScanIsFirstFailed(lines, i, if limit <= 0 then 0 else limit);
  }
}
