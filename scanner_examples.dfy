/**
 * Worked inputs for the scanner: both quote styles, the line shapes that are
 * ignored, and a small configuration with a nested submenu.
 */
module ScannerExamples {
  import opened Wrappers
  import opened Scanner

  /** Any keyword line with an opening quote, a title and a quote or the end after it yields that title. */
  lemma KeywordLine(q: char, title: string, tail: string)
    requires IsQuote(q) && IsTitle(title) && (tail == [] || IsQuote(tail[0]))
    ensures MatchEntry(Keyword + [q] + title + tail) == Some(title)
  {
    var line := Keyword + [q] + title + tail;
    assert line[..|Keyword|] == Keyword;
    assert line[TitleStart..TitleStart + |title|] == title;
    assert Captures(line, title);
    MatchEntryIff(line, title);
  }

  lemma SingleQuoted()
    ensures MatchEntry("menuentry 'Ubuntu, with Linux 5.15' {") == Some("Ubuntu, with Linux 5.15")
  {
    var t := "Ubuntu, with Linux 5.15";
    var line, built := "menuentry 'Ubuntu, with Linux 5.15' {", Keyword + ['\''] + t + "' {";
    assert |line| == |built|;
    forall i | 0 <= i < |line| ensures line[i] == built[i] { }
    assert line == built;
    KeywordLine('\'', t, "' {");
  }

  lemma DoubleQuoted()
    ensures MatchEntry("menuentry \"Windows Boot Manager\"") == Some("Windows Boot Manager")
  {
    var t := "Windows Boot Manager";
    var line, built := "menuentry \"Windows Boot Manager\"", Keyword + ['"'] + t + "\"";
    assert |line| == |built|;
    forall i | 0 <= i < |line| ensures line[i] == built[i] { }
    assert line == built;
    KeywordLine('"', t, "\"");
  }

  /** The title stops at the first quote of either kind, whichever kind opened it. */
  lemma MixedQuotes()
    ensures MatchEntry("menuentry 'It\"s here'") == Some("It")
  {
    var line, built := "menuentry 'It\"s here'", Keyword + ['\''] + "It" + "\"s here'";
    assert |line| == |built|;
    forall i | 0 <= i < |line| ensures line[i] == built[i] { }
    assert line == built;
    KeywordLine('\'', "It", "\"s here'");
  }

  /** Indented, commented, submenu, double-spaced and empty-title lines yield nothing. */
  lemma IgnoredShapes()
    ensures MatchEntry("  submenu \"Advanced options\"") == None
    ensures MatchEntry("#menuentry \"commented out\"") == None
    ensures MatchEntry("\tmenuentry 'Ubuntu'") == None
    ensures MatchEntry("menuentry  'Ubuntu'") == None
    ensures MatchEntry("menuentry ''") == None
  {
    assert "  submenu \"Advanced options\""[..|Keyword|] != Keyword by {
      assert "  submenu \"Advanced options\""[0] == ' ';
    }
  }

  lemma UbuntuLine()
    ensures EntryOf("menuentry 'Ubuntu' {") == ["Ubuntu"]
  {
    var line, built := "menuentry 'Ubuntu' {", Keyword + ['\''] + "Ubuntu" + "' {";
    assert |line| == |built|;
    forall i | 0 <= i < |line| ensures line[i] == built[i] { }
    assert line == built;
    KeywordLine('\'', "Ubuntu", "' {");
  }

  lemma WindowsLine()
    ensures EntryOf("menuentry 'Windows Boot Manager' {") == ["Windows Boot Manager"]
  {
    var line, built := "menuentry 'Windows Boot Manager' {", Keyword + ['\''] + "Windows Boot Manager" + "' {";
    assert |line| == |built|;
    forall i | 0 <= i < |line| ensures line[i] == built[i] { }
    assert line == built;
    KeywordLine('\'', "Windows Boot Manager", "' {");
  }

  lemma NestedLines()
    ensures EntryOf("submenu 'Advanced options for Ubuntu' {") == []
    ensures EntryOf("  menuentry 'Ubuntu, with Linux 5.15.0' {") == []
    ensures EntryOf("}") == []
  {
    var sub, nested := "submenu 'Advanced options for Ubuntu' {", "  menuentry 'Ubuntu, with Linux 5.15.0' {";
    assert sub[..|Keyword|] != Keyword by { assert sub[0] == 's'; }
    assert nested[..|Keyword|] != Keyword by { assert nested[0] == ' '; }
  }

  /** One more line of a file adds that line's entry after the titles before it. */
  lemma TitlesOneMore(lines: seq<string>, k: nat)
    requires k < |lines|
    ensures Titles(lines[..k + 1]) == Titles(lines[..k]) + EntryOf(lines[k])
  {
    assert lines[..k + 1][..k] == lines[..k];
  }

  /** Titles of a short file, line by line. */
  lemma FiveLines(a: string, b: string, c: string, d: string, e: string)
    ensures ScannedTitles([a, b, c, d, e]) == EntryOf(a) + EntryOf(b) + EntryOf(c) + EntryOf(d) + EntryOf(e)
  {
    var lines := [a, b, c, d, e];
    assert ScannedTitles(lines) == Titles(lines[..5]) by { assert lines[..5] == lines; }
    assert lines[..0] == [];
    TitlesOneMore(lines, 0);
    assert Titles(lines[..1]) == EntryOf(a);
    TitlesOneMore(lines, 1);
    TitlesOneMore(lines, 2);
    TitlesOneMore(lines, 3);
    TitlesOneMore(lines, 4);
  }

  /** A configuration with a nested submenu: only the two top-level entries are offered, in file order. */
  lemma NestedSubmenuExample()
    ensures ScannedTitles([
      "menuentry 'Ubuntu' {",
      "submenu 'Advanced options for Ubuntu' {",
      "  menuentry 'Ubuntu, with Linux 5.15.0' {",
      "}",
      "menuentry 'Windows Boot Manager' {"]) == ["Ubuntu", "Windows Boot Manager"]
  {
    UbuntuLine();
    NestedLines();
    WindowsLine();
    FiveLines(
      "menuentry 'Ubuntu' {",
      "submenu 'Advanced options for Ubuntu' {",
      "  menuentry 'Ubuntu, with Linux 5.15.0' {",
      "}",
      "menuentry 'Windows Boot Manager' {");
  }
}
