/** The address pattern `\b(?:\d{1,3}\.){3}\d{1,3}\b` and `findall` over one
    line, written as a deterministic scanner. `\d` is an ASCII digit and a word
    character is an ASCII letter, digit or underscore. */
module IpScanner {

  datatype Option<T> = None | Some(value: T)

  predicate IsDigit(c: char) { '0' <= c <= '9' }

  predicate IsWordChar(c: char) {
    IsDigit(c) || 'a' <= c <= 'z' || 'A' <= c <= 'Z' || c == '_'
  }

  /** A word character sits at index i (never outside the string). */
  predicate WordAt(s: string, i: int) {
    0 <= i < |s| && IsWordChar(s[i])
  }

  /** `\b` at position i: a word character on exactly one side of it. */
  predicate Boundary(s: string, i: int) {
    WordAt(s, i - 1) != WordAt(s, i)
  }

  /** `\d{1,3}` can match s[i..j]. */
  predicate DigitGroup(s: string, i: int, j: int) {
    0 <= i < j <= |s| && j - i <= 3 && forall k :: i <= k < j ==> IsDigit(s[k])
  }

  predicate DotAt(s: string, i: int) {
    0 <= i < |s| && s[i] == '.'
  }

  /** The pattern can match s[p..e] with its first three groups ending at a, b
      and c, where the dots are. */
  predicate PatternAt(s: string, p: int, a: int, b: int, c: int, e: int) {
    Boundary(s, p)
    && DigitGroup(s, p, a) && DotAt(s, a)
    && DigitGroup(s, a + 1, b) && DotAt(s, b)
    && DigitGroup(s, b + 1, c) && DotAt(s, c)
    && DigitGroup(s, c + 1, e) && Boundary(s, e)
  }

  /** The regular expression, with all its backtracking, can match s[p..e]. */
  ghost predicate Matches(s: string, p: int, e: int)
    ensures Matches(s, p, e) ==> 0 <= p && p + 7 <= e <= p + 15 && e <= |s|
  {
    exists a, b, c :: PatternAt(s, p, a, b, c, e)
  }

  /** Four groups of 1-3 digits separated by dots, and nothing else. */
  ghost predicate IsDottedQuad(m: string) {
    exists a, b, c :: DigitGroup(m, 0, a) && DotAt(m, a) && DigitGroup(m, a + 1, b) && DotAt(m, b)
                      && DigitGroup(m, b + 1, c) && DotAt(m, c) && DigitGroup(m, c + 1, |m|)
  }

  /** Length of the run of digits that starts at i. */
  function DigitRun(s: string, i: nat): (n: nat)
    requires i <= |s|
    ensures i + n <= |s|
    decreases |s| - i
  {
    if i < |s| && IsDigit(s[i]) then 1 + DigitRun(s, i + 1) else 0
  }

  /** The run is all digits and stops at a non-digit or at the end. */
  lemma {:induction false} DigitRunSpec(s: string, i: nat)
    requires i <= |s|
    ensures forall k :: i <= k < i + DigitRun(s, i) ==> IsDigit(s[k])
    ensures i + DigitRun(s, i) < |s| ==> !IsDigit(s[i + DigitRun(s, i)])
    decreases |s| - i
  {
    if i < |s| && IsDigit(s[i]) {
      DigitRunSpec(s, i + 1);
    }
  }

  /** Digits on [i, j) followed by a non-digit (or the end) make a run of j - i. */
  lemma {:induction false} RunLength(s: string, i: nat, j: nat)
    requires i <= j <= |s|
    requires forall k :: i <= k < j ==> IsDigit(s[k])
    requires j == |s| || !IsDigit(s[j])
    ensures DigitRun(s, i) == j - i
    decreases j - i
  {
    if i < j {
      RunLength(s, i + 1, j);
    }
  }

  /** The scanner's attempt at position p: each group is taken as the whole
      digit run it starts with, since a shorter take would leave a digit where
      the pattern needs a dot or a boundary. Returns the end of the match. */
  function MatchAt(s: string, p: nat): (r: Option<nat>)
    requires p <= |s|
    ensures r.Some? ==> p + 7 <= r.value <= p + 15 && r.value <= |s|
    ensures r.Some? ==> IsDigit(s[p]) && !WordAt(s, p as int - 1)
  {
    var a := p + DigitRun(s, p);
    if !(Boundary(s, p) && 1 <= a - p <= 3 && DotAt(s, a)) then None else
    var b := a + 1 + DigitRun(s, a + 1);
    if !(1 <= b - a - 1 <= 3 && DotAt(s, b)) then None else
    var c := b + 1 + DigitRun(s, b + 1);
    if !(1 <= c - b - 1 <= 3 && DotAt(s, c)) then None else
    var e := c + 1 + DigitRun(s, c + 1);
    if 1 <= e - c - 1 <= 3 && Boundary(s, e) then Some(e) else None
  }

  /** Every way the pattern can match at p uses whole digit runs as groups. */
  lemma PatternUsesRuns(s: string, p: nat, a: int, b: int, c: int, e: int)
    requires PatternAt(s, p, a, b, c, e)
    ensures a == p + DigitRun(s, p)
    ensures b == a + 1 + DigitRun(s, a + 1)
    ensures c == b + 1 + DigitRun(s, b + 1)
    ensures e == c + 1 + DigitRun(s, c + 1)
  {
    RunLength(s, p, a);
    RunLength(s, a + 1, b);
    RunLength(s, b + 1, c);
    assert WordAt(s, e - 1);
    RunLength(s, c + 1, e);
  }

  lemma MatchAtSound(s: string, p: nat)
    requires p <= |s| && MatchAt(s, p).Some?
    ensures Matches(s, p, MatchAt(s, p).value)
  {
    var a := p + DigitRun(s, p);
    var b := a + 1 + DigitRun(s, a + 1);
    var c := b + 1 + DigitRun(s, b + 1);
    DigitRunSpec(s, p);
    DigitRunSpec(s, a + 1);
    DigitRunSpec(s, b + 1);
    DigitRunSpec(s, c + 1);
    assert PatternAt(s, p, a, b, c, MatchAt(s, p).value);
  }

  lemma MatchAtComplete(s: string, p: nat, e: int)
    requires p <= |s| && Matches(s, p, e)
    ensures MatchAt(s, p) == Some(e)
  {
    var a, b, c :| PatternAt(s, p, a, b, c, e);
    PatternUsesRuns(s, p, a, b, c, e);
  }

  /** The scanner finds a match at p exactly when the pattern can match there,
      and both agree on where it ends. */
  lemma MatchAtIff(s: string, p: nat, e: int)
    requires p <= |s|
    ensures MatchAt(s, p) == Some(e) <==> Matches(s, p, e)
  {
    if MatchAt(s, p) == Some(e) {
      MatchAtSound(s, p);
    }
    if Matches(s, p, e) {
      MatchAtComplete(s, p, e);
    }
  }

  /** A match at a given start is unique: the regex's backtracking has no
      choices that lead to two different matches. */
  lemma MatchIsUnique(s: string, p: nat, e1: int, e2: int)
    requires p <= |s|
    requires Matches(s, p, e1) && Matches(s, p, e2)
    ensures e1 == e2
  {
  }

  /** A run of four or more digits at p never starts a match. */
  lemma LongRunDoesNotMatch(s: string, p: nat, e: int)
    requires p + 4 <= |s|
    requires forall k :: p <= k < p + 4 ==> IsDigit(s[k])
    ensures !Matches(s, p, e)
  {
  }

  /** A match is never directly followed, nor preceded, by a word character. */
  lemma MatchIsDelimited(s: string, p: nat, e: int)
    requires Matches(s, p, e)
    ensures !WordAt(s, p as int - 1) && !WordAt(s, e)
  {
  }

  /** The text of a match is an IPv4-shaped string. */
  lemma MatchIsDottedQuad(s: string, p: nat, e: int)
    requires Matches(s, p, e)
    ensures IsDottedQuad(s[p..e])
  {
    var a, b, c :| PatternAt(s, p, a, b, c, e);
    var m := s[p..e];
    assert forall k :: 0 <= k < |m| ==> m[k] == s[p + k];
    assert DigitGroup(m, 0, a - p) && DotAt(m, a - p) && DigitGroup(m, a - p + 1, b - p) && DotAt(m, b - p)
           && DigitGroup(m, b - p + 1, c - p) && DotAt(m, c - p) && DigitGroup(m, c - p + 1, |m|);
  }

  /** `findall` from position pos as a list of spans: try a match at pos; on
      success record it and resume at its end, otherwise move on by one. */
  function Spans(s: string, pos: nat): (r: seq<(nat, nat)>)
    requires pos <= |s|
    ensures forall k :: 0 <= k < |r| ==> pos <= r[k].0 < r[k].1 <= |s|
    ensures forall k :: 0 <= k < |r| ==> 7 <= r[k].1 - r[k].0 <= 15
    decreases |s| - pos
  {
    if pos == |s| then []
    else match MatchAt(s, pos)
      case Some(e) => [(pos, e)] + Spans(s, e)
      case None => Spans(s, pos + 1)
  }

  /** Matches are reported left to right and never overlap. */
  lemma {:induction false} SpansInOrder(s: string, pos: nat)
    requires pos <= |s|
    ensures forall k, l :: 0 <= k < l < |Spans(s, pos)| ==> Spans(s, pos)[k].1 <= Spans(s, pos)[l].0
    decreases |s| - pos
  {
    if pos < |s| {
      match MatchAt(s, pos)
      case Some(e) => SpansInOrder(s, e);
      case None => SpansInOrder(s, pos + 1);
    }
  }

  /** The texts of the spans sp of s. */
  function Texts(s: string, sp: seq<(nat, nat)>): (r: seq<string>)
    requires forall k :: 0 <= k < |sp| ==> sp[k].0 <= sp[k].1 <= |s|
    ensures |r| == |sp|
    ensures forall k :: 0 <= k < |sp| ==> r[k] == s[sp[k].0..sp[k].1]
  {
    if sp == [] then [] else [s[sp[0].0..sp[0].1]] + Texts(s, sp[1..])
  }

  /** The matched texts, in the order found: `pattern.findall(s)`. */
  function FindAll(s: string): (r: seq<string>)
    ensures |r| == |Spans(s, 0)|
    ensures forall k :: 0 <= k < |r| ==> 7 <= |r[k]| <= 15
  {
    Texts(s, Spans(s, 0))
  }

  /** Every span found is a match of the pattern. */
  lemma {:induction false} SpansMatch(s: string, pos: nat, k: nat)
    requires pos <= |s|
    requires k < |Spans(s, pos)|
    ensures Matches(s, Spans(s, pos)[k].0, Spans(s, pos)[k].1)
    decreases |s| - pos
  {
    if pos < |s| {
      match MatchAt(s, pos)
      case Some(e) =>
        if k == 0 {
          MatchAtSound(s, pos);
        } else {
          SpansMatch(s, e, k - 1);
        }
      case None =>
        SpansMatch(s, pos + 1, k);
    }
  }

  /** Leftmost matching: no match starts at a position that no span covers, so
      every span starts at the first match after the previous span. */
  lemma {:induction false} NoMatchOutsideSpans(s: string, pos: nat, q: nat, e: int)
    requires pos <= q < |s|
    requires forall k :: 0 <= k < |Spans(s, pos)| ==> !(Spans(s, pos)[k].0 <= q < Spans(s, pos)[k].1)
    ensures !Matches(s, q, e)
    decreases |s| - pos
  {
    var r := Spans(s, pos);
    match MatchAt(s, pos)
    case Some(e') =>
      assert r[0] == (pos, e');
      assert forall k :: 0 <= k < |Spans(s, e')| ==> Spans(s, e')[k] == r[k + 1];
      NoMatchOutsideSpans(s, e', q, e);
    case None =>
      if q == pos {
        if Matches(s, q, e) {
          MatchAtComplete(s, q, e);
        }
      } else {
        NoMatchOutsideSpans(s, pos + 1, q, e);
      }
  }

  /** Everything `findall` reports is an IPv4-shaped string that the pattern
      matched, delimited by non-word characters in the line. */
  lemma FoundAreDottedQuads(s: string, k: nat)
    requires k < |FindAll(s)|
    ensures IsDottedQuad(FindAll(s)[k])
    ensures Matches(s, Spans(s, 0)[k].0, Spans(s, 0)[k].1)
    ensures !WordAt(s, Spans(s, 0)[k].0 as int - 1) && !WordAt(s, Spans(s, 0)[k].1)
  {
    SpansMatch(s, 0, k);
    MatchIsDottedQuad(s, Spans(s, 0)[k].0, Spans(s, 0)[k].1);
    MatchIsDelimited(s, Spans(s, 0)[k].0, Spans(s, 0)[k].1);
  }
}
