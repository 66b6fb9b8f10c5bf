/**
 * The boot-entry scanner of extension.js (`populatePopup`): it reads the GRUB
 * configuration line by line and offers one menu item per top-level
 * `menuentry` line, matched with the regular expression /^menuentry ['"]([^'"]+)/.
 */
module Scanner {
  import opened Wrappers

  /** What a line must start with: the word `menuentry` and exactly one space. */
  const Keyword: string := "menuentry "

  /** Index of the first title character: after the keyword and the opening quote. */
  const TitleStart: nat := |Keyword| + 1

  /** The largest line index that is examined: `count++ > 600` breaks on line 601. */
  const LastExamined: nat := 600

  predicate IsQuote(c: char) { c == '\'' || c == '"' }

  predicate QuoteFree(s: string) { forall i :: 0 <= i < |s| ==> !IsQuote(s[i]) }

  /** A title the scanner can produce: at least one character and no quote of either kind. */
  predicate IsTitle(t: string) { |t| > 0 && QuoteFree(t) }

  /**
   * What the regular expression captures, stated declaratively: the line starts
   * with the keyword, then one quote of either kind, then `title`, which is
   * non-empty, quote-free and runs up to the next quote or the end of the line.
   */
  ghost predicate Captures(line: string, title: string) {
    && |line| >= TitleStart + |title|
    && line[..|Keyword|] == Keyword
    && IsQuote(line[|Keyword|])
    && IsTitle(title)
    && line[TitleStart..TitleStart + |title|] == title
    && (|line| == TitleStart + |title| || IsQuote(line[TitleStart + |title|]))
  }

  /** Length of the longest quote-free prefix of `s`: the greedy `[^'"]+` run. */
  function QuoteFreeRun(s: string): (n: nat)
    ensures n <= |s|
    ensures QuoteFree(s[..n])
    ensures n < |s| ==> IsQuote(s[n])
  {
    if s == [] || IsQuote(s[0]) then 0
    else
      var n := 1 + QuoteFreeRun(s[1..]);
      assert forall i :: 1 <= i < n ==> s[..n][i] == s[1..][..n - 1][i - 1];
      n
  }

  /** A quote-free prefix that ends at a quote or at the end is the longest one. */
  lemma RunIsMaximal(s: string, k: nat)
    requires k <= |s| && QuoteFree(s[..k])
    requires k == |s| || IsQuote(s[k])
    ensures QuoteFreeRun(s) == k
  {
    var n := QuoteFreeRun(s);
    assert forall i :: 0 <= i < k ==> !IsQuote(s[i]) by {
      forall i | 0 <= i < k ensures !IsQuote(s[i]) { assert s[..k][i] == s[i]; }
    }
    assert forall i :: 0 <= i < n ==> !IsQuote(s[i]) by {
      forall i | 0 <= i < n ensures !IsQuote(s[i]) { assert s[..n][i] == s[i]; }
    }
  }

  /** A capture is the longest quote-free run after the opening quote. */
  lemma CaptureIsRun(line: string, t: string)
    requires Captures(line, t)
    ensures QuoteFreeRun(line[TitleStart..]) == |t|
    ensures line[TitleStart..][..|t|] == t
  {
    var rest := line[TitleStart..];
    assert rest[..|t|] == line[TitleStart..TitleStart + |t|];
    RunIsMaximal(rest, |t|);
  }

  /** A non-empty run after the keyword and an opening quote is a capture. */
  lemma RunCaptures(line: string)
    requires |line| > TitleStart && line[..|Keyword|] == Keyword && IsQuote(line[|Keyword|])
    requires QuoteFreeRun(line[TitleStart..]) > 0
    ensures Captures(line, line[TitleStart..][..QuoteFreeRun(line[TitleStart..])])
  {
    var rest := line[TitleStart..];
    var n := QuoteFreeRun(rest);
    assert rest[..n] == line[TitleStart..TitleStart + n];
  }

  /** The hand-coded matcher for /^menuentry ['"]([^'"]+)/: the first capture group, if the line matches. */
  function MatchEntry(line: string): (r: Option<string>)
    ensures r.Some? ==> IsTitle(r.value)
  {
    if |line| > TitleStart && line[..|Keyword|] == Keyword && IsQuote(line[|Keyword|]) then
      var rest := line[TitleStart..];
      var n := QuoteFreeRun(rest);
      if n == 0 then None else Some(rest[..n])
    else
      None
  }

  /** The matcher agrees with the pattern: it yields `t` if and only if the pattern captures `t`. */
  lemma MatchEntryIff(line: string, t: string)
    ensures MatchEntry(line) == Some(t) <==> Captures(line, t)
  {
    if Captures(line, t) {
      CaptureIsRun(line, t);
    }
    if MatchEntry(line) == Some(t) {
      RunCaptures(line);
    }
  }

  /** The matcher agrees with the pattern on every candidate title at once. */
  lemma CapturesOfLine(line: string)
    ensures forall t :: MatchEntry(line) == Some(t) <==> Captures(line, t)
  {
    forall t ensures MatchEntry(line) == Some(t) <==> Captures(line, t) {
      MatchEntryIff(line, t);
    }
  }

  /** The menu items one line contributes: its title, or nothing. */
  function EntryOf(line: string): (e: seq<string>)
    ensures |e| <= 1
    ensures forall t :: t in e <==> Captures(line, t)
  {
    CapturesOfLine(line);
    match MatchEntry(line)
    case Some(t) => [t]
    case None => []
  }

  /** The titles of `lines`, in line order, one per matching line. */
  function Titles(lines: seq<string>): (ts: seq<string>)
    ensures |ts| <= |lines|
    ensures forall t :: t in ts ==> IsTitle(t)
  {
    if lines == [] then []
    else Titles(lines[..|lines| - 1]) + EntryOf(lines[|lines| - 1])
  }

  function Min(a: nat, b: nat): nat { if a < b then a else b }

  /** The titles `populatePopup` offers for a file of `lines`: those of lines 0 .. LastExamined. */
  function ScannedTitles(lines: seq<string>): (ts: seq<string>)
    ensures |ts| <= Min(|lines|, LastExamined + 1)
    ensures forall t :: t in ts ==> IsTitle(t)
  {
    Titles(lines[..Min(|lines|, LastExamined + 1)])
  }

  /** Scanning two pieces of a file gives the titles of the first piece, then those of the second. */
  lemma {:induction false} TitlesAppend(a: seq<string>, b: seq<string>)
    ensures Titles(a + b) == Titles(a) + Titles(b)
    decreases |b|
  {
    if b == [] {
      assert a + b == a;
    } else {
      var last := |b| - 1;
      assert (a + b)[..|a + b| - 1] == a + b[..last];
      assert (a + b)[|a + b| - 1] == b[last];
      TitlesAppend(a, b[..last]);
    }
  }

  /** A line that does not match contributes nothing, wherever it stands. */
  lemma IgnoredLine(a: seq<string>, line: string, b: seq<string>)
    requires MatchEntry(line) == None
    ensures Titles(a + [line] + b) == Titles(a + b)
  {
    assert Titles([line]) == [] by { assert [line][..0] == []; }
    TitlesAppend(a, [line]);
    TitlesAppend(a + [line], b);
    TitlesAppend(a, b);
  }

  /** A title is offered exactly when some line captures it. */
  lemma {:induction false} TitlesMembership(lines: seq<string>, t: string)
    ensures t in Titles(lines) <==> exists j :: 0 <= j < |lines| && MatchEntry(lines[j]) == Some(t)
    decreases |lines|
  {
    if lines != [] {
      var init, last := lines[..|lines| - 1], lines[|lines| - 1];
      assert Titles(lines) == Titles(init) + EntryOf(last);
      TitlesMembership(init, t);
      assert forall j :: 0 <= j < |init| ==> init[j] == lines[j];
      if t in Titles(lines) && MatchEntry(last) != Some(t) {
        assert t in Titles(init);
      }
      if MatchEntry(last) == Some(t) {
        assert t in EntryOf(last);
      }
    }
  }

  /** When every line matches, the k-th title is the k-th line's: order and count are preserved. */
  lemma {:induction false} TitlesOfMatchingLines(lines: seq<string>)
    requires forall j :: 0 <= j < |lines| ==> MatchEntry(lines[j]).Some?
    ensures |Titles(lines)| == |lines|
    ensures forall k :: 0 <= k < |lines| ==> Titles(lines)[k] == MatchEntry(lines[k]).value
    decreases |lines|
  {
    if lines != [] {
      var init := lines[..|lines| - 1];
      assert forall j :: 0 <= j < |init| ==> init[j] == lines[j];
      TitlesOfMatchingLines(init);
      var last := MatchEntry(lines[|lines| - 1]);
      assert EntryOf(lines[|lines| - 1]) == [last.value];
      assert Titles(lines) == Titles(init) + [last.value];
    }
  }

  /** A file whose every line is a menu entry yields min(#lines, 601) titles: the bound cuts the rest. */
  lemma ScanBoundOnMatchingLines(lines: seq<string>)
    requires forall j :: 0 <= j < |lines| ==> MatchEntry(lines[j]).Some?
    ensures |ScannedTitles(lines)| == Min(|lines|, LastExamined + 1)
  {
    var examined := lines[..Min(|lines|, LastExamined + 1)];
    assert forall j :: 0 <= j < |examined| ==> examined[j] == lines[j];
    TitlesOfMatchingLines(examined);
  }

  /** Lines past the bound never contribute, whatever they hold. */
  lemma LinesPastBoundIgnored(lines: seq<string>, more: seq<string>)
    requires |lines| > LastExamined
    ensures ScannedTitles(lines + more) == ScannedTitles(lines)
  {
    assert (lines + more)[..LastExamined + 1] == lines[..LastExamined + 1];
  }

  /**
   * A stream of lines read from the configuration file. Reading past the last
   * line yields nothing (end of input); a stream is closed once and for all.
   */
  class LineStream {
    const lines: seq<string>
    var pos: nat
    var closed: bool

    ghost predicate Valid() reads this { pos <= |lines| }

    constructor Open(lines: seq<string>)
      ensures this.lines == lines && pos == 0 && !closed && Valid()
    {
      this.lines := lines;
      pos := 0;
      closed := false;
    }

    method ReadLine() returns (line: Option<string>)
      requires Valid() && !closed
      modifies this`pos
      ensures Valid()
      ensures old(pos) < |lines| ==> line == Some(lines[old(pos)]) && pos == old(pos) + 1
      ensures old(pos) == |lines| ==> line == None && pos == old(pos)
    {
      if pos < |lines| {
        line := Some(lines[pos]);
        pos := pos + 1;
      } else {
        line := None;
      }
    }

    method Close()
      modifies this`closed
      ensures closed
    {
      closed := true;
    }
  }

  /**
   * `populatePopup`: open the file, read lines until end of input or until the
   * line counter passes the bound, collect one title per matching line (each
   * becomes a menu item), and close the stream on either exit.
   */
  method PopulatePopup(lines: seq<string>) returns (titles: seq<string>, stream: LineStream)
    ensures titles == ScannedTitles(lines)
    ensures stream.lines == lines && stream.closed
    ensures stream.pos == Min(|lines|, LastExamined + 2)
  {
    stream := new LineStream.Open(lines);
    titles := [];
    var count: nat := 0;
    while true
      invariant stream.lines == lines && stream.Valid() && !stream.closed
      invariant count <= LastExamined + 1 && stream.pos == count
      invariant titles == Titles(lines[..count])
      decreases |lines| - stream.pos
    {
      var line := stream.ReadLine();
      if line.None? {
        assert lines[..count] == lines[..Min(|lines|, LastExamined + 1)];
        break;
      }
      var pastBound := count > LastExamined;
      count := count + 1;
      if pastBound {
        assert count - 1 == Min(|lines|, LastExamined + 1);
        break;
      }
      assert line.value == lines[count - 1];
      assert lines[..count][..count - 1] == lines[..count - 1];
      assert Titles(lines[..count]) == Titles(lines[..count - 1]) + EntryOf(line.value);
      titles := titles + EntryOf(line.value);
    }
    stream.Close();
  }
}
