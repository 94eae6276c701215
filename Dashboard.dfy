/**
  The text transformation of `update_dashboard`. If the dashboard holds the
  placeholder `*No recent activity*`, every placeholder is replaced by the
  activity line. Otherwise, if the text mentions `## Recent Activity`, the
  line is inserted after each line that is exactly that header. Otherwise the
  text is left alone.

  The rule is written for any header and placeholder (`Section`), and
  `DashboardText` applies it to the two the orchestrator uses.
 */
module Dashboard {
  import opened Text

  /** The header line of the activity section and the placeholder shown while it is empty. */
  datatype Section = Section(header: string, placeholder: string)

  const RecentActivity := Section("## Recent Activity", "*No recent activity*")

  /** The activity line `- [timestamp] action: details`. */
  function ActivityEntry(timestamp: string, action: string, details: string): string {
    "- [" + timestamp + "] " + action + ": " + details
  }

  /** What iteration `i` of the insertion loop appends to `new_lines`. */
  function Block(sec: Section, lines: seq<string>, i: nat, entry: string): seq<string>
    requires i < |lines|
  {
    if lines[i] != sec.header then [lines[i]]
    else if i + 1 < |lines| && Contains(lines[i + 1], sec.placeholder) then [lines[i], entry, ""]
    else [lines[i], entry]
  }

  /** `new_lines` after the first `n` iterations. */
  function Rewritten(sec: Section, lines: seq<string>, entry: string, n: nat): seq<string>
    requires n <= |lines|
  {
    if n == 0 then [] else Rewritten(sec, lines, entry, n - 1) + Block(sec, lines, n - 1, entry)
  }

  /** How many of the first `n` lines are exactly the header. */
  function HeadersBefore(sec: Section, lines: seq<string>, n: nat): nat
    requires n <= |lines|
  {
    if n == 0 then 0 else HeadersBefore(sec, lines, n - 1) + (if lines[n - 1] == sec.header then 1 else 0)
  }

  /** The text written back for a section with a non-empty placeholder. */
  function Rewrite(sec: Section, content: string, entry: string): string
    requires |sec.placeholder| > 0
  {
    if Contains(content, sec.placeholder) then Replace(content, sec.placeholder, entry)
    else if Contains(content, sec.header) then
      var lines := Split(content, '\n');
      Join(Rewritten(sec, lines, entry, |lines|), '\n')
    else content
  }

  /** The text `update_dashboard` writes back. */
  function DashboardText(content: string, entry: string): string {
    Rewrite(RecentActivity, content, entry)
  }

  /** The insertion loop, including the branch for a placeholder right after the header. */
  method InsertEntries(sec: Section, lines: seq<string>, entry: string) returns (newLines: seq<string>)
    ensures newLines == Rewritten(sec, lines, entry, |lines|)
  {
    newLines := [];
    var i := 0;
    while i < |lines|
      invariant 0 <= i <= |lines|
      invariant newLines == Rewritten(sec, lines, entry, i)
    {
      newLines := newLines + [lines[i]];
      if lines[i] == sec.header {
        if i + 1 < |lines| && Contains(lines[i + 1], sec.placeholder) {
          newLines := newLines + [entry];
          newLines := newLines + [""];
        } else {
          newLines := newLines + [entry];
        }
      }
      i := i + 1;
    }
  }

  /** A substring of one line is a substring of the text. */
  lemma LinesInText(content: string, t: string)
    ensures forall i :: 0 <= i < |Split(content, '\n')| && Contains(Split(content, '\n')[i], t) ==> Contains(content, t)
  {
    var lines := Split(content, '\n');
    forall i | 0 <= i < |lines| && Contains(lines[i], t) ensures Contains(content, t) {
      JoinContains(lines, '\n', i, t);
      JoinSplit(content, '\n');
    }
  }

  /** When the whole text has no placeholder, neither has any of its lines: the branch of the loop
      that looks for one after the header is never taken on the path that runs the loop. */
  lemma PlaceholderFreeLines(content: string, placeholder: string)
    requires !Contains(content, placeholder)
    ensures forall i :: 0 <= i < |Split(content, '\n')| ==> !Contains(Split(content, '\n')[i], placeholder)
  {
    LinesInText(content, placeholder);
  }

  /** Without placeholders, the loop appends one line per line and one more per header line. */
  lemma {:induction false} RewrittenLength(sec: Section, lines: seq<string>, entry: string, n: nat)
    requires n <= |lines|
    requires forall i :: 0 <= i < |lines| ==> !Contains(lines[i], sec.placeholder)
    ensures |Rewritten(sec, lines, entry, n)| == n + HeadersBefore(sec, lines, n)
    decreases n
  {
    if n > 0 {
      RewrittenLength(sec, lines, entry, n - 1);
    }
  }

  /** Without placeholders, line `i` sits at position `i` plus the number of headers before it,
      and when it is a header the entry comes right after it. */
  lemma {:induction false} RewrittenAt(sec: Section, lines: seq<string>, entry: string, n: nat, i: nat)
    requires i < n <= |lines|
    requires forall j :: 0 <= j < |lines| ==> !Contains(lines[j], sec.placeholder)
    ensures i + HeadersBefore(sec, lines, i) < |Rewritten(sec, lines, entry, n)|
    ensures Rewritten(sec, lines, entry, n)[i + HeadersBefore(sec, lines, i)] == lines[i]
    ensures lines[i] == sec.header ==>
      i + HeadersBefore(sec, lines, i) + 1 < |Rewritten(sec, lines, entry, n)| &&
      Rewritten(sec, lines, entry, n)[i + HeadersBefore(sec, lines, i) + 1] == entry
    decreases n
  {
    var prev := Rewritten(sec, lines, entry, n - 1);
    var b := Block(sec, lines, n - 1, entry);
    var r := Rewritten(sec, lines, entry, n);
    var k := i + HeadersBefore(sec, lines, i);
    assert r == prev + b;
    if i < n - 1 {
      RewrittenAt(sec, lines, entry, n - 1, i);
      assert r[k] == prev[k];
      if lines[i] == sec.header {
        assert r[k + 1] == prev[k + 1];
      }
    } else {
      RewrittenLength(sec, lines, entry, n - 1);
      assert k == |prev|;
      assert r[k] == b[0];
      if lines[i] == sec.header {
        assert b == [lines[i], entry];
        assert r[k + 1] == b[1];
      }
    }
  }

  /** The rewritten lines hold no separator when the lines and the entry hold none. */
  lemma {:induction false} RewrittenNoSep(sec: Section, lines: seq<string>, entry: string, n: nat, sep: char)
    requires n <= |lines|
    requires forall i :: 0 <= i < |lines| ==> sep !in lines[i]
    requires sep !in entry
    ensures forall k :: 0 <= k < |Rewritten(sec, lines, entry, n)| ==> sep !in Rewritten(sec, lines, entry, n)[k]
    decreases n
  {
    if n > 0 {
      RewrittenNoSep(sec, lines, entry, n - 1, sep);
      var prev := Rewritten(sec, lines, entry, n - 1);
      var b := Block(sec, lines, n - 1, entry);
      assert forall k :: 0 <= k < |b| ==> sep !in b[k];
      assert Rewritten(sec, lines, entry, n) == prev + b;
    }
  }

  /** With no header line, the loop rebuilds the lines unchanged. */
  lemma {:induction false} RewrittenNoHeader(sec: Section, lines: seq<string>, entry: string, n: nat)
    requires n <= |lines|
    requires forall i :: 0 <= i < |lines| ==> lines[i] != sec.header
    ensures Rewritten(sec, lines, entry, n) == lines[..n]
    ensures HeadersBefore(sec, lines, n) == 0
    decreases n
  {
    if n > 0 {
      RewrittenNoHeader(sec, lines, entry, n - 1);
      assert lines[..n] == lines[..n - 1] + [lines[n - 1]];
    }
  }

  /** With the placeholder present, every placeholder is replaced by the entry: the entry shows up,
      and the length changes by the length difference once per placeholder. */
  lemma RewriteReplaces(sec: Section, content: string, entry: string)
    requires |sec.placeholder| > 0
    requires Contains(content, sec.placeholder)
    ensures Rewrite(sec, content, entry) == Replace(content, sec.placeholder, entry)
    ensures Contains(Rewrite(sec, content, entry), entry)
    ensures |Rewrite(sec, content, entry)| ==
      |content| + Occurrences(content, sec.placeholder) * (|entry| - |sec.placeholder|)
  {
    ReplaceInserts(content, sec.placeholder, entry);
    ReplaceLength(content, sec.placeholder, entry);
  }

  /** The text before the first placeholder is kept as it was, the placeholder becomes the entry,
      and only what follows it is rewritten further. */
  lemma RewriteFirst(sec: Section, before: string, after: string, entry: string)
    requires |sec.placeholder| > 0
    requires forall j :: 0 <= j < |before| ==>
      !StartsWith((before + sec.placeholder + after)[j..], sec.placeholder)
    ensures Rewrite(sec, before + sec.placeholder + after, entry) ==
      before + entry + Replace(after, sec.placeholder, entry)
  {
    var p := sec.placeholder;
    assert StartsWith(p, p);
    ContainsInfix(before, p, after, p);
    ReplaceFirst(before, p, after, entry);
  }

  /** `out` is `lines` with `entry` inserted after each header line: line `i` sits at position `i`
      plus the number of headers before it, each header is followed by the entry, and there is
      one more line per header. */
  predicate Inserted(sec: Section, lines: seq<string>, entry: string, out: seq<string>) {
    |out| == |lines| + HeadersBefore(sec, lines, |lines|) &&
    (forall i :: 0 <= i < |lines| ==>
      i + HeadersBefore(sec, lines, i) < |out| && out[i + HeadersBefore(sec, lines, i)] == lines[i]) &&
    (forall i :: 0 <= i < |lines| && lines[i] == sec.header ==>
      i + HeadersBefore(sec, lines, i) + 1 < |out| && out[i + HeadersBefore(sec, lines, i) + 1] == entry)
  }

  /** Without placeholders, the loop inserts the entry after each header and keeps every line. */
  lemma RewrittenInserted(sec: Section, lines: seq<string>, entry: string)
    requires forall j :: 0 <= j < |lines| ==> !Contains(lines[j], sec.placeholder)
    ensures Inserted(sec, lines, entry, Rewritten(sec, lines, entry, |lines|))
  {
    var r := Rewritten(sec, lines, entry, |lines|);
    RewrittenLength(sec, lines, entry, |lines|);
    forall i | 0 <= i < |lines|
      ensures i + HeadersBefore(sec, lines, i) < |r| && r[i + HeadersBefore(sec, lines, i)] == lines[i]
      ensures lines[i] == sec.header ==>
        i + HeadersBefore(sec, lines, i) + 1 < |r| && r[i + HeadersBefore(sec, lines, i) + 1] == entry
    {
      RewrittenAt(sec, lines, entry, |lines|, i);
    }
  }

  /** Without the placeholder and with a one-line entry, the lines written back are the original
      lines with the entry inserted after each exact header line. */
  lemma RewriteInserts(sec: Section, content: string, entry: string)
    requires |sec.placeholder| > 0
    requires !Contains(content, sec.placeholder)
    requires '\n' !in entry
    ensures Inserted(sec, Split(content, '\n'), entry, Split(Rewrite(sec, content, entry), '\n'))
  {
    var lines := Split(content, '\n');
    PlaceholderFreeLines(content, sec.placeholder);
    RewrittenInserted(sec, lines, entry);
    var r := Rewritten(sec, lines, entry, |lines|);
    if Contains(content, sec.header) {
      RewrittenLength(sec, lines, entry, |lines|);
      RewrittenNoSep(sec, lines, entry, |lines|, '\n');
      SplitJoin(r, '\n');
    } else {
      LinesInText(content, sec.header);
      assert Contains(sec.header, sec.header) by { assert sec.header[..|sec.header|] == sec.header; }
      RewrittenNoHeader(sec, lines, entry, |lines|);
      assert lines[..|lines|] == lines;
    }
  }

  /** With neither the placeholder nor an exact header line, the text is written back as it was. */
  lemma RewriteUnchanged(sec: Section, content: string, entry: string)
    requires |sec.placeholder| > 0
    requires !Contains(content, sec.placeholder)
    requires forall i :: 0 <= i < |Split(content, '\n')| ==> Split(content, '\n')[i] != sec.header
    ensures Rewrite(sec, content, entry) == content
  {
    if Contains(content, sec.header) {
      var lines := Split(content, '\n');
      RewrittenNoHeader(sec, lines, entry, |lines|);
      assert lines[..|lines|] == lines;
      JoinSplit(content, '\n');
    }
  }

  /** The activity line is one line when its parts are, and starts with `- [`. */
  lemma ActivityEntryOneLine(timestamp: string, action: string, details: string)
    requires '\n' !in timestamp && '\n' !in action && '\n' !in details
    ensures '\n' !in ActivityEntry(timestamp, action, details)
    ensures StartsWith(ActivityEntry(timestamp, action, details), "- [")
  {
    var e := ActivityEntry(timestamp, action, details);
    assert e == "- [" + (timestamp + "] " + action + ": " + details);
    assert e[..3] == "- [";
  }
}
