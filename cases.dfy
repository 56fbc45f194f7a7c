/** Worked inputs for the scanner and the tally, checked against the
    definitions. */
module Cases {
  import opened IpScanner
  import opened Tally

  /** An address after other text is found, without the text around it. */
  lemma AddressInText()
    ensures FindAll("at 10.0.0.1") == ["10.0.0.1"]
  {
    var s := "at 10.0.0.1";
    assert DigitRun(s, 11) == 0 && DigitRun(s, 10) == 1 && DigitRun(s, 8) == 1;
    assert DigitRun(s, 6) == 1 && DigitRun(s, 3) == 2;
    assert MatchAt(s, 3) == Some(11);
    assert DigitRun(s, 0) == 0 && DigitRun(s, 1) == 0 && DigitRun(s, 2) == 0;
    assert Spans(s, 11) == [];
    assert Spans(s, 3) == [(3, 11)];
    assert Spans(s, 0) == [(3, 11)];
    assert s[3..11] == "10.0.0.1";
    assert Texts(s, [(3, 11)]) == [s[3..11]];
  }

  /** A trailing letter leaves no match anywhere in "1.2.3.4a". */
  lemma TrailingLetterGivesNoMatch()
    ensures FindAll("1.2.3.4a") == []
  {
    var s := "1.2.3.4a";
    assert DigitRun(s, 8) == 0 && DigitRun(s, 7) == 0;
    assert DigitRun(s, 6) == 1 && DigitRun(s, 4) == 1 && DigitRun(s, 2) == 1 && DigitRun(s, 0) == 1;
    assert DigitRun(s, 5) == 0 && DigitRun(s, 3) == 0 && DigitRun(s, 1) == 0;
    assert Spans(s, 7) == [];
    assert Spans(s, 6) == [];
    assert Spans(s, 5) == [];
    assert Spans(s, 4) == [];
    assert Spans(s, 3) == [];
    assert Spans(s, 2) == [];
    assert Spans(s, 1) == [];
  }

  lemma FourDigitTail()
    ensures Spans("1234.5.6.7", 4) == []
  {
  }

  /** A four-digit first group leaves no match anywhere in "1234.5.6.7": not
      at its start, and not inside the digit run, where `\b` fails. */
  lemma FourDigitGroupGivesNoMatch()
    ensures FindAll("1234.5.6.7") == []
  {
    var s := "1234.5.6.7";
    FourDigitTail();
    assert DigitRun(s, 4) == 0;
    assert DigitRun(s, 3) == 1 && DigitRun(s, 2) == 2 && DigitRun(s, 1) == 3 && DigitRun(s, 0) == 4;
    assert Spans(s, 3) == [];
    assert Spans(s, 2) == [];
    assert Spans(s, 1) == [];
  }

  /** Counter keeps keys in the order first seen and bumps counts in place. */
  lemma CountKeepsFirstSeenOrder()
    ensures Count(["c", "b", "a", "b", "a"]) == [("c", 1), ("b", 2), ("a", 2)]
  {
    var items: seq<string> := ["c", "b", "a", "b", "a"];
    assert items[..0] == [];
    assert items[..1] == items[..1][..0] + ["c"];
    assert items[..2][..1] == items[..1];
    assert items[..3][..2] == items[..2];
    assert items[..4][..3] == items[..3];
    assert items[..5][..4] == items[..4];
    assert items[..5] == items;
    assert Count(items[..1]) == [("c", 1)];
    assert Keys([("c", 1)]) == ["c"];
    BumpNew([("c", 1)], "b");
    assert Keys([("c", 1), ("b", 1)]) == ["c", "b"];
    BumpNew([("c", 1), ("b", 1)], "a");
    assert Count(items[..2]) == [("c", 1), ("b", 1)];
    assert Count(items[..3]) == [("c", 1), ("b", 1), ("a", 1)];
    var t3: Table := [("c", 1), ("b", 1), ("a", 1)];
    assert t3[1..] == [("b", 1), ("a", 1)] && t3[1..][1..] == [("a", 1)];
    var t4: Table := [("c", 1), ("b", 2), ("a", 1)];
    assert t4[1..] == [("b", 2), ("a", 1)] && t4[1..][1..] == [("a", 1)];
    assert Count(items[..4]) == [("c", 1), ("b", 2), ("a", 1)];
  }

  /** Two keys seen twice each tie; the one first seen comes first, and the key
      seen once is cut off by top_n = 2. */
  lemma TiesKeepFirstSeenOrder()
    ensures MostCommon(Count(["c", "b", "a", "b", "a"]), 2) == [("b", 2), ("a", 2)]
  {
    CountKeepsFirstSeenOrder();
    assert SortByCount([("a", 2)]) == [("a", 2)];
    assert SortByCount([("b", 2), ("a", 2)]) == [("b", 2), ("a", 2)];
    assert SortByCount([("c", 1), ("b", 2), ("a", 2)]) == [("b", 2), ("a", 2), ("c", 1)];
  }

  /** The address seen twice comes first; a top_n larger than the number of
      distinct addresses returns them all. */
  lemma RepeatedAddressComesFirst()
    ensures MostCommon(Count(["10.0.0.1", "10.0.0.1", "10.0.0.2"]), 5)
         == [("10.0.0.1", 2), ("10.0.0.2", 1)]
  {
    var items: seq<string> := ["10.0.0.1", "10.0.0.1", "10.0.0.2"];
    assert items[..1] == items[..1][..0] + ["10.0.0.1"];
    assert items[..2][..1] == items[..1];
    assert items[..3] == items;
    assert Count(items[..1]) == [("10.0.0.1", 1)];
    assert Count(items[..2]) == [("10.0.0.1", 2)];
    var t2: Table := [("10.0.0.1", 2)];
    assert Keys(t2) == ["10.0.0.1"];
    BumpNew(t2, "10.0.0.2");
    assert Count(items) == [("10.0.0.1", 2), ("10.0.0.2", 1)];
    assert SortByCount([("10.0.0.2", 1)]) == [("10.0.0.2", 1)];
  }
}

/** Worked inputs for the level counter and the failed-login sample. */
module LineCases {
  import opened AsciiText
  import opened LevelCounter
  import opened FailedLogins

  /** A keyword is found in any letter case, anywhere in the line. */
  lemma LowerCaseErrorIsCounted()
    ensures CountMentioning(["disk error", "ok"], "ERROR") == 1
  {
    var lines: seq<string> := ["disk error", "ok"];
    assert lines[..1] == ["disk error"] && lines[..1][..0] == [];
    assert Upper("ok") == "OK";
    assert Upper("disk error") == "DISK ERROR";
    assert "DISK ERROR"[5..] == "ERROR";
    assert "DISK ERROR"[5..][..5] == "ERROR";
  }

  /** "FAILED" in capitals counts as a failure; "x" does not. */
  lemma CapitalFailedLooksFailed()
    ensures LooksFailed("a FAILED b ") && !LooksFailed("x")
  {
    assert Lower("a FAILED b ") == "a failed b ";
    assert "a failed b "[2..][..6] == "failed";
  }

  /** Stripping drops the trailing blank only. */
  lemma StripDropsTrailingBlank()
    ensures Strip("a FAILED b ") == "a FAILED b"
  {
  }

  /** With a limit of 0 the first failed line is still returned, stripped. */
  lemma ZeroLimitTakesFirstStrippedLine()
    ensures FirstFailed(["x", "a FAILED b ", "failed again"], Bound(0)) == ["a FAILED b"]
  {
    var lines: seq<string> := ["x", "a FAILED b ", "failed again"];
    CapitalFailedLooksFailed();
    StripDropsTrailingBlank();
    assert lines[..1] == ["x"] && lines[..1][..0] == [];
    assert lines[..2][..1] == lines[..1];
    assert FailedLines(lines[..2]) == ["a FAILED b"];
    FailedLinesAppend(lines[..2], lines[2..]);
    assert lines[..2] + lines[2..] == lines;
  }
}
