/**
 * The selection step of extension.js (`addPopupItem`): the command line that
 * asks pkexec to run grub-reboot on a title, and the rule that the shutdown
 * dialog goes on to reboot only when that command exits with status 0.
 */
module Command {
  import opened Wrappers
  import Scanner

  /** The authorization broker, asked to run the next program as root. */
  const Pkexec: string := "/usr/bin/pkexec"
  const AsRoot: string := " --user root "
  /** The GRUB tool that sets the entry for the next boot only. */
  const GrubReboot: string := "/usr/sbin/grub-reboot"

  /** Everything of the command line that comes before the quoted title. */
  const Launcher: string := Pkexec + AsRoot + GrubReboot + " "

  /** The command line spawned when the user picks `title`. */
  function RebootCommand(title: string): (c: string)
    ensures |c| == |Launcher| + |title| + 2
    ensures c[..|Launcher|] == Launcher
    ensures c[|Launcher|] == '\'' && c[|c| - 1] == '\''
    ensures c[|Launcher| + 1..|c| - 1] == title
  {
    Launcher + "'" + title + "'"
  }

  /** Index of the first `c` in `s`, or |s| when there is none. */
  function IndexOf(s: string, c: char): (i: nat)
    ensures i <= |s|
    ensures i < |s| ==> s[i] == c
    ensures c !in s[..i]
  {
    if s == [] then 0
    else if s[0] == c then 0
    else
      var i := 1 + IndexOf(s[1..], c);
      assert s[..i] == [s[0]] + s[1..][..i - 1];
      i
  }

  /** `s` splits around its `i`-th character. */
  lemma SplitAt(s: string, i: nat)
    requires i < |s|
    ensures s == s[..i] + [s[i]] + s[i + 1..]
  {
    assert s == s[..i] + s[i..];
    assert s[i..] == [s[i]] + s[i + 1..];
  }

  /** How many times `c` occurs in `s`. */
  function Occurrences(s: string, c: char): nat {
    if s == [] then 0 else (if s[0] == c then 1 else 0) + Occurrences(s[1..], c)
  }

  lemma {:induction false} NoOccurrences(s: string, c: char)
    requires c !in s
    ensures Occurrences(s, c) == 0
  {
    if s != [] {
      assert c !in s[1..] by { assert forall x :: x in s[1..] ==> x in s; }
      NoOccurrences(s[1..], c);
    }
  }

  /** The single quotes of `s` from its first one on: that one and those after it. */
  lemma {:induction false} QuoteCountAfter(s: string, i: nat)
    requires i < |s| && s[i] == '\'' && '\'' !in s[..i]
    ensures Occurrences(s, '\'') == 1 + Occurrences(s[i + 1..], '\'')
    decreases i
  {
    if i > 0 {
      assert s[0] == s[..i][0];
      assert s[1..][..i - 1] == s[..i][1..];
      assert '\'' !in s[..i][1..] by { assert forall x :: x in s[..i][1..] ==> x in s[..i]; }
      QuoteCountAfter(s[1..], i - 1);
      assert s[1..][i..] == s[i + 1..];
    }
  }

  /** A split of a command line at its first single-quoted segment: before, inside, after. */
  datatype Quoted = Quoted(before: string, inside: string, after: string)

  /** The first single-quoted segment of `s`, if one is opened and closed. */
  function FirstQuoted(s: string): (r: Option<Quoted>)
    ensures r.Some? <==> Occurrences(s, '\'') >= 2
  {
    var open := IndexOf(s, '\'');
    if open == |s| then
      assert s[..open] == s;
      NoOccurrences(s, '\'');
      None
    else
      var rest := s[open + 1..];
      var close := IndexOf(rest, '\'');
      QuoteCountAfter(s, open);
      if close == |rest| then
        assert rest[..close] == rest;
        NoOccurrences(rest, '\'');
        None
      else
        QuoteCountAfter(rest, close);
        Some(Quoted(s[..open], rest[..close], rest[close + 1..]))
  }

  /** Two splits at a quote, one inside the other, make one split at two quotes. */
  lemma Rejoin(s: string, before: string, rest: string, inside: string, after: string)
    requires s == before + "'" + rest && rest == inside + "'" + after
    ensures s == before + "'" + inside + "'" + after
  {
    assert before + "'" + (inside + "'" + after) == before + "'" + inside + "'" + after;
  }

  /**
   * A segment found by `FirstQuoted` is delimited by single quotes, and neither
   * the text before it nor the segment itself holds one.
   */
  lemma FirstQuotedSplits(s: string)
    ensures FirstQuoted(s).Some? ==>
      var q := FirstQuoted(s).value;
      s == q.before + "'" + q.inside + "'" + q.after && '\'' !in q.before && '\'' !in q.inside
  {
    var open := IndexOf(s, '\'');
    if open < |s| {
      var rest := s[open + 1..];
      var close := IndexOf(rest, '\'');
      if close < |rest| {
        SplitAt(s, open);
        SplitAt(rest, close);
        Rejoin(s, s[..open], rest, rest[..close], rest[close + 1..]);
      }
    }
  }

  /** The first `c` of `a + [c] + b` is the one after `a`, when `a` holds none. */
  lemma IndexOfAfter(a: string, c: char, b: string)
    requires c !in a
    ensures IndexOf(a + [c] + b, c) == |a|
  {
    var s := a + [c] + b;
    var i := IndexOf(s, c);
    assert s[|a|] == c;
    assert s[..|a|] == a;
  }

  /** The first quoted segment is determined by the quote-free text around the quotes. */
  lemma FirstQuotedOf(before: string, inside: string, after: string)
    requires '\'' !in before && '\'' !in inside
    ensures FirstQuoted(before + "'" + inside + "'" + after) == Some(Quoted(before, inside, after))
  {
    var s := before + "'" + inside + "'" + after;
    IndexOfAfter(before, '\'', inside + "'" + after);
    assert s == before + ['\''] + (inside + "'" + after);
    var rest := s[|before| + 1..];
    assert rest == inside + ['\''] + after;
    IndexOfAfter(inside, '\'', after);
    assert s[..|before|] == before;
    assert rest[..|inside|] == inside;
    assert rest[|inside| + 1..] == after;
  }

  lemma LauncherQuoteFree()
    ensures '\'' !in Launcher
  {
    assert '\'' !in Pkexec && '\'' !in AsRoot && '\'' !in GrubReboot;
  }

  /**
   * The quoted argument of the command is exactly the title, closed by the
   * last character of the command line, if and only if the title holds no
   * single quote.
   */
  lemma QuotedArgumentIsTitle(title: string)
    ensures FirstQuoted(RebootCommand(title)) == Some(Quoted(Launcher, title, "")) <==> '\'' !in title
  {
    FirstQuotedSplits(RebootCommand(title));
    if '\'' !in title {
      LauncherQuoteFree();
      FirstQuotedOf(Launcher, title, "");
      assert RebootCommand(title) == Launcher + "'" + title + "'" + "";
    }
  }

  /** Every title the scanner offers reaches grub-reboot as one intact quoted argument. */
  lemma ScannedTitleQuotedIntact(lines: seq<string>, title: string)
    requires title in Scanner.ScannedTitles(lines)
    ensures FirstQuoted(RebootCommand(title)) == Some(Quoted(Launcher, title, ""))
  {
    assert Scanner.IsTitle(title);
    QuotedArgumentIsTitle(title);
  }

  /** What the shutdown dialog does once the spawned command exits. */
  datatype DialogStep = CloseAndConfirm(signal: string) | StayOpen

  /**
   * The exit callback: only a status of exactly 0 closes the dialog and
   * confirms the reboot signal; any other status leaves the dialog as it was.
   */
  function OnCommandExit(signal: string, status: int): (step: DialogStep)
    ensures step.CloseAndConfirm? <==> status == 0
    ensures step.CloseAndConfirm? ==> step.signal == signal
  {
    if status == 0 then CloseAndConfirm(signal) else StayOpen
  }
}
