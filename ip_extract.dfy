/** `extract_ips`: every address-shaped match of every line, tallied, and the
    most frequent ones reported. */
module IpExtractor {
  import opened IpScanner
  import opened Tally

  /** The lists concatenated in order, as repeated `extend` calls build them. */
  function Flatten(xss: seq<seq<string>>): seq<string> {
    if xss == [] then [] else Flatten(xss[..|xss| - 1]) + xss[|xss| - 1]
  }

  lemma {:induction false} FlattenAppend(xss: seq<seq<string>>, yss: seq<seq<string>>)
    ensures Flatten(xss + yss) == Flatten(xss) + Flatten(yss)
  {
    if yss == [] {
      assert xss + yss == xss;
    } else {
      var n := |yss| - 1;
      FlattenAppend(xss, yss[..n]);
      assert (xss + yss)[..|xss + yss| - 1] == xss + yss[..n];
    }
  }

  /** `findall` applied to each line. */
  function PerLine(lines: seq<string>): seq<seq<string>> {
    seq(|lines|, i requires 0 <= i < |lines| => FindAll(lines[i]))
  }

  /** The matches of all lines, line after line, each line's in the order found. */
  function AllMatches(lines: seq<string>): (r: seq<string>)
    ensures lines == [] ==> r == []
  {
    Flatten(PerLine(lines))
  }

  /** Matching distributes over concatenation of the input. */
  lemma AllMatchesAppend(a: seq<string>, b: seq<string>)
    ensures AllMatches(a + b) == AllMatches(a) + AllMatches(b)
  {
    assert PerLine(a + b) == PerLine(a) + PerLine(b);
    FlattenAppend(PerLine(a), PerLine(b));
  }

  lemma AllMatchesOfOneLine(line: string)
    ensures AllMatches([line]) == FindAll(line)
  {
    var pl := PerLine([line]);
    assert pl == [FindAll(line)];
    assert pl[..0] == [];
    assert Flatten(pl) == Flatten(pl[..0]) + pl[0];
  }

  /** The matches of any reordering of the lines are a reordering of the
      matches. */
  lemma {:induction false} MatchesIgnoreLineOrder(a: seq<string>, b: seq<string>)
    requires multiset(a) == multiset(b)
    ensures multiset(AllMatches(a)) == multiset(AllMatches(b))
    decreases |a|
  {
    if a == [] {
      assert b == [] by {
        assert |b| == |multiset(b)| == 0;
      }
    } else {
      var x := a[0];
      assert x in multiset(b);
      var j :| 0 <= j < |b| && b[j] == x;
      var rest := b[..j] + b[j + 1..];
      assert a == [x] + a[1..];
      assert b == b[..j] + [x] + b[j + 1..];
      assert multiset(a[1..]) == multiset(a) - multiset{x};
      assert multiset(rest) == multiset(b) - multiset{x};
      MatchesIgnoreLineOrder(a[1..], rest);
      AllMatchesAppend([x], a[1..]);
      AllMatchesAppend(b[..j] + [x], b[j + 1..]);
      AllMatchesAppend(b[..j], [x]);
      AllMatchesAppend(b[..j], b[j + 1..]);
    }
  }

  /** The tally does not depend on the order of the lines: in the Counter of
      any reordering, every address has the count it has in the Counter of the
      original lines. Only the order of first appearance, and so the breaking
      of ties, can change. */
  lemma TallyIgnoresLineOrder(a: seq<string>, b: seq<string>)
    requires multiset(a) == multiset(b)
    ensures multiset(AllMatches(a)) == multiset(AllMatches(b))
    ensures forall i :: 0 <= i < |Count(AllMatches(b))| ==>
              Count(AllMatches(b))[i].1 == multiset(AllMatches(a))[Count(AllMatches(b))[i].0]
  {
    MatchesIgnoreLineOrder(a, b);
    CountSpec(AllMatches(b));
  }

  /** Everything collected is an IPv4-shaped string. */
  lemma {:induction false} AllMatchesAreDottedQuads(lines: seq<string>)
    ensures forall m :: m in AllMatches(lines) ==> IsDottedQuad(m)
  {
    if lines != [] {
      var n := |lines| - 1;
      AllMatchesAreDottedQuads(lines[..n]);
      AllMatchesAppend(lines[..n], [lines[n]]);
      assert lines[..n] + [lines[n]] == lines;
      AllMatchesOfOneLine(lines[n]);
      forall k | 0 <= k < |FindAll(lines[n])| ensures IsDottedQuad(FindAll(lines[n])[k]) {
        FoundAreDottedQuads(lines[n], k);
      }
    }
  }

  /** An entry of the most-common list carries the exact number of times its
      string was matched. */
  lemma EntryCountIsExact(items: seq<string>, n: int, x: (string, nat))
    requires x in MostCommon(Count(items), n)
    ensures x.0 in items && x.1 == multiset(items)[x.0]
  {
    var t := Count(items);
    CountSpec(items);
    MostCommonShape(t, n);
    assert x in multiset(MostCommon(t, n));
    assert x in multiset(t);
    var i :| 0 <= i < |t| && t[i] == x;
  }

  /** What extract_ips reports about the collected matches: at most top_n
      pairs, some whenever top_n >= 1 and something matched, none when nothing
      matched, by non-increasing count, each with its exact count. */
  lemma ReportOfMatches(ips: seq<string>, topN: int)
    ensures |MostCommon(Count(ips), topN)| <= if topN <= 0 then 0 else topN
    ensures topN > 0 && ips != [] ==> MostCommon(Count(ips), topN) != []
    ensures ips == [] ==> MostCommon(Count(ips), topN) == []
    ensures NonIncreasing(MostCommon(Count(ips), topN))
    ensures forall i :: 0 <= i < |MostCommon(Count(ips), topN)| ==>
              MostCommon(Count(ips), topN)[i].0 in ips
              && MostCommon(Count(ips), topN)[i].1 == multiset(ips)[MostCommon(Count(ips), topN)[i].0]
  {
    var common := MostCommon(Count(ips), topN);
    CountSpec(ips);
    MostCommonShape(Count(ips), topN);
    if ips != [] {
      assert ips[0] in Keys(Count(ips));
    }
    forall i | 0 <= i < |common|
      ensures common[i].0 in ips && common[i].1 == multiset(ips)[common[i].0]
    {
      EntryCountIsExact(ips, topN, common[i]);
    }
  }

  /** extract_ips: collect the matches of each line with `findall`, then
      `Counter(ips).most_common(top_n)`. At most top_n pairs come back (none
      for top_n <= 0), highest count first, each with the exact number of
      times its address was matched; no matches give an empty result. */
  method ExtractIps(lines: seq<string>, topN: int) returns (common: Table)
    ensures common == MostCommon(Count(AllMatches(lines)), topN)
    ensures |common| <= if topN <= 0 then 0 else topN
    ensures topN > 0 && AllMatches(lines) != [] ==> common != []
    ensures AllMatches(lines) == [] ==> common == []
    ensures NonIncreasing(common)
    ensures forall i :: 0 <= i < |common| ==>
              common[i].0 in AllMatches(lines) && common[i].1 == multiset(AllMatches(lines))[common[i].0]
  {
    var ips: seq<string> := [];
    for i := 0 to |lines|
      invariant ips == AllMatches(lines[..i])
    {
      assert PerLine(lines[..i + 1]) == PerLine(lines[..i]) + [FindAll(lines[i])];
      ips := ips + FindAll(lines[i]);
    }
    assert lines[..|lines|] == lines;
    common := MostCommon(Count(ips), topN);
    ReportOfMatches(ips, topN);
  }
}
