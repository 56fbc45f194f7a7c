/** `count_levels`: how many lines mention each of the severity keywords. */
module LevelCounter {
  import opened AsciiText

  /** The keywords searched for; they are also the keys of the result. */
  const Keywords: set<string> := {"ERROR", "WARNING", "INFO"}

  /** The line, upper-cased, contains kw as a substring. */
  predicate Mentions(line: string, kw: string) {
    Contains(Upper(line), kw)
  }

  /** Number of lines that mention kw, counted from the last line backwards. */
  function CountMentioning(lines: seq<string>, kw: string): (r: nat)
    ensures r <= |lines|
  {
    if lines == [] then 0
    else CountMentioning(lines[..|lines| - 1], kw) + (if Mentions(lines[|lines| - 1], kw) then 1 else 0)
  }

  /** Indices of the lines that mention kw. */
  function MentioningIndices(lines: seq<string>, kw: string): set<nat> {
    set i: nat | i < |lines| && Mentions(lines[i], kw)
  }

  /** The counter is the size of the set of mentioning lines, so it lies between
      0 and the number of lines and is 0 on empty input. */
  lemma {:induction false} CountIsNumberOfMentioningLines(lines: seq<string>, kw: string)
    ensures CountMentioning(lines, kw) == |MentioningIndices(lines, kw)|
    ensures 0 <= CountMentioning(lines, kw) <= |lines|
    ensures lines == [] ==> CountMentioning(lines, kw) == 0
  {
    if lines == [] {
      assert MentioningIndices(lines, kw) == {};
    } else {
      var n := |lines| - 1;
      CountIsNumberOfMentioningLines(lines[..n], kw);
      MentioningIndicesOfLastLine(lines, kw);
    }
  }

  /** The last line adds its own index to the mentioning indices exactly when
      it mentions kw. */
  lemma MentioningIndicesOfLastLine(lines: seq<string>, kw: string)
    requires lines != []
    ensures var n := |lines| - 1;
            MentioningIndices(lines, kw)
              == MentioningIndices(lines[..n], kw) + (if Mentions(lines[n], kw) then {n} else {})
  {
  }

  /** Counting over a + b is counting over a, then over b; in particular
      appending lines never decreases a counter. */
  lemma {:induction false} CountAppend(a: seq<string>, b: seq<string>, kw: string)
    ensures CountMentioning(a + b, kw) == CountMentioning(a, kw) + CountMentioning(b, kw)
    ensures CountMentioning(a, kw) <= CountMentioning(a + b, kw)
  {
    if b != [] {
      var n := |b| - 1;
      CountAppend(a, b[..n], kw);
      assert (a + b)[..|a + b| - 1] == a + b[..n];
    } else {
      assert a + b == a;
    }
  }

  /** Counting one more line adds one exactly for the keywords it mentions. */
  lemma CountOneMoreLine(lines: seq<string>, i: nat, kw: string)
    requires i < |lines|
    ensures CountMentioning(lines[..i + 1], kw)
              == CountMentioning(lines[..i], kw) + (if Mentions(lines[i], kw) then 1 else 0)
  {
    assert lines[..i + 1][..i] == lines[..i];
  }

  /** count_levels: one pass over the lines; each of the three tests is made on
      the upper-cased line independently of the others, so a line may bump
      several counters. */
  method CountLevels(lines: seq<string>) returns (levels: map<string, nat>)
    ensures levels.Keys == Keywords
    ensures forall kw :: kw in levels ==> levels[kw] == CountMentioning(lines, kw)
  {
    levels := map["ERROR" := 0, "WARNING" := 0, "INFO" := 0];
    for i := 0 to |lines|
      invariant levels.Keys == Keywords
      invariant levels["ERROR"] == CountMentioning(lines[..i], "ERROR")
      invariant levels["WARNING"] == CountMentioning(lines[..i], "WARNING")
      invariant levels["INFO"] == CountMentioning(lines[..i], "INFO")
    {
      CountOneMoreLine(lines, i, "ERROR");
      CountOneMoreLine(lines, i, "WARNING");
      CountOneMoreLine(lines, i, "INFO");
      var upper := Upper(lines[i]);
      if Contains(upper, "ERROR") {
        levels := levels["ERROR" := levels["ERROR"] + 1];
      }
      if Contains(upper, "WARNING") {
        levels := levels["WARNING" := levels["WARNING"] + 1];
      }
      if Contains(upper, "INFO") {
        levels := levels["INFO" := levels["INFO"] + 1];
      }
    }
    assert lines[..|lines|] == lines;
  }
}
