/** The per-file transform of the chapter script: every second-level Markdown
    heading of a document becomes a "YouTube chapters" entry, and the list of
    entries is appended to the document under its own heading. */
module Chapters {
  import opened PhpStrings

  /** The marker put in front of every label; the script has no other marker. */
  const Marker: string := "0:00 "

  /** The heading of the appended block. */
  const BlockHeading: string := "## YouTube chapters"

  /** What goes between the original contents and the entries. */
  const BlockIntro: string := "\n\n" + BlockHeading + "\n\n"

  /** A line is a chapter line when its first character is '#' and it holds
      exactly two '#' characters anywhere. */
  predicate IsChapterLine(line: string) {
    |line| > 0 && line[0] == '#' && Count(line, '#') == 2
  }

  /** The label of a line: every '#' deleted, then trimmed. */
  function Label(line: string): string {
    Trim(Remove(line, '#'))
  }

  /** The chapter entry of a line: the marker followed by the label. */
  function Entry(line: string): string {
    Marker + Label(line)
  }

  /** What one line contributes: its entry if it is a chapter line, else nothing. */
  function LineEntries(line: string): seq<string> {
    if IsChapterLine(line) then [Entry(line)] else []
  }

  /** The entries of a sequence of lines, in order: one for every chapter line
      and none for any other line. */
  function EntriesOf(lines: seq<string>): (entries: seq<string>)
    ensures |entries| <= |lines|
  {
    if lines == [] then []
    else EntriesOf(lines[..|lines| - 1]) + LineEntries(lines[|lines| - 1])
  }

  /** The entries of a document: those of its lines, split on "\n". */
  function Entries(contents: string): seq<string> {
    EntriesOf(Split(contents, '\n'))
  }

  /** The text written back: the contents, the block heading, then the
      entries one per line. The original contents are kept as a prefix. */
  function Transform(contents: string): (written: string)
    ensures |written| >= |contents| && written[..|contents|] == contents
  {
    contents + BlockIntro + Join(Entries(contents), '\n')
  }

  /** The loop over the lines of one document, growing the list of headings
      in place; it computes exactly the entries of the document. */
  method CollectHeadings(contents: string) returns (headings: seq<string>)
    ensures headings == Entries(contents)
  {
    var lines := Split(contents, '\n');
    headings := [];
    for i := 0 to |lines|
      invariant headings == EntriesOf(lines[..i])
    {
      var line := lines[i];
      assert lines[..i + 1][..i] == lines[..i];
      if |line| > 0 && line[0] == '#' {
        if Count(line, '#') != 2 {
          continue;
        }
        line := Trim(Remove(line, '#'));
        headings := headings + [Marker + line];
      }
    }
    assert lines[..|lines|] == lines;
  }

  // ---------------------------------------------------------------------------
  // Properties of the selection, the labels and the entries

  /** The entries of two runs of lines are the entries of each run, in order. */
  lemma {:induction false} EntriesOfAppend(a: seq<string>, b: seq<string>)
    ensures EntriesOf(a + b) == EntriesOf(a) + EntriesOf(b)
  {
    if b == [] {
      assert a + b == a;
    } else {
      var ab := a + b;
      var front := b[..|b| - 1];
      var last := b[|b| - 1];
      assert ab[..|ab| - 1] == a + front;
      assert ab[|ab| - 1] == last;
      assert EntriesOf(ab) == EntriesOf(a + front) + LineEntries(last);
      EntriesOfAppend(a, front);
      assert EntriesOf(b) == EntriesOf(front) + LineEntries(last);
    }
  }

  /** A single line (text without "\n") yields an entry if and only if it is
      a chapter line, and then exactly its own entry. */
  lemma LineSelection(line: string)
    requires '\n' !in line
    ensures Entries(line) == if IsChapterLine(line) then [Entry(line)] else []
    ensures |Entries(line)| == 1 <==> (|line| > 0 && line[0] == '#' && Count(line, '#') == 2)
  {
    SplitWithoutSeparator(line, '\n');
    assert [line][..0] == [];
  }

  /** The exact-count rule on sample lines. A first-level heading is not a
      chapter line. */
  lemma FirstLevelRejected()
    ensures !IsChapterLine("# T")
  {
    assert Count("# T", '#') == 1;
  }

  /** A third-level heading is not a chapter line. */
  lemma ThirdLevelRejected()
    ensures !IsChapterLine("### T")
  {
    assert Count("### T", '#') == 3;
  }

  /** A second-level heading with a '#' in its text is not a chapter line. */
  lemma HashInTextRejected()
    ensures !IsChapterLine("## C# x")
  {
    assert Count("## C# x", '#') == 3;
  }

  /** A line with one '#' at each end is selected, and its label is the text
      between them. */
  lemma AcceptedSample()
    ensures IsChapterLine("#a#") && Entry("#a#") == Marker + "a"
  {
    assert Count("#a#", '#') == 2;
    assert Remove("#a#", '#') == "a";
  }

  /** A label holds no '#', does not begin or end with a trim character, and
      holds no line break when its line holds none. */
  lemma {:induction false} LabelShape(line: string)
    ensures '#' !in Label(line)
    ensures Label(line) == [] || (!IsTrimSpace(Label(line)[0]) && !IsTrimSpace(Label(line)[|Label(line)| - 1]))
    ensures '\n' !in line ==> '\n' !in Label(line)
  {
    var removed := Remove(line, '#');
    var trimmed := Trim(removed);
    RemoveCounts(line, '#');
    TrimSpec(removed);
    TrimKeepsCharacters(removed);
    assert multiset(trimmed)['#'] <= multiset(removed)['#'] == 0;
    if '\n' !in line {
      assert multiset(trimmed)['\n'] <= multiset(removed)['\n'] == multiset(line)['\n'] == 0;
    }
  }

  /** Entry shape for any lines that hold no line break: every entry starts
      with the marker, the rest is a label (no '#', trimmed), and no entry
      holds a line break. */
  lemma {:induction false} EntriesOfShape(lines: seq<string>)
    requires forall j :: 0 <= j < |lines| ==> '\n' !in lines[j]
    ensures forall k :: 0 <= k < |EntriesOf(lines)| ==> WellFormedEntry(EntriesOf(lines)[k])
  {
    if lines != [] {
      var front := lines[..|lines| - 1];
      var last := lines[|lines| - 1];
      EntriesOfShape(front);
      if IsChapterLine(last) {
        EntryShape(last);
      }
      var es, more := EntriesOf(front), LineEntries(last);
      assert EntriesOf(lines) == es + more;
      forall k | 0 <= k < |es + more| ensures WellFormedEntry((es + more)[k]) {
        if k >= |es| {
          assert (es + more)[k] == more[k - |es|];
        }
      }
    }
  }

  /** The entry of a line without a line break is well formed. */
  lemma EntryShape(line: string)
    requires '\n' !in line
    ensures WellFormedEntry(Entry(line))
  {
    var e := Entry(line);
    LabelShape(line);
    assert e[..|Marker|] == Marker && e[|Marker|..] == Label(line);
  }

  /** An entry as the script builds it: the marker, then a label with no '#'
      that is trimmed, and no line break anywhere. */
  ghost predicate WellFormedEntry(e: string) {
    |e| >= |Marker| && e[..|Marker|] == Marker
    && '#' !in e[|Marker|..]
    && (e[|Marker|..] == [] || (!IsTrimSpace(e[|Marker|]) && !IsTrimSpace(e[|e| - 1])))
    && '\n' !in e
  }

  /** Every entry of a document is well formed. */
  lemma EntriesShape(contents: string)
    ensures forall k :: 0 <= k < |Entries(contents)| ==> WellFormedEntry(Entries(contents)[k])
  {
    SplitPiecesLackSeparator(contents, '\n');
    EntriesOfShape(Split(contents, '\n'));
  }

  /** No entry of a document holds a line break. */
  lemma EntriesHaveNoLineBreak(contents: string)
    ensures forall k :: 0 <= k < |Entries(contents)| ==> '\n' !in Entries(contents)[k]
  {
    EntriesShape(contents);
  }

  /** The positions of the chapter lines among the lines, from first to last. */
  function ChapterPositions(lines: seq<string>): (ps: seq<nat>)
    ensures forall k :: 0 <= k < |ps| ==> ps[k] < |lines|
  {
    if lines == [] then []
    else
      var n := |lines| - 1;
      ChapterPositions(lines[..n]) + (if IsChapterLine(lines[n]) then [n] else [])
  }

  /** Every listed position holds a chapter line, and the positions strictly
      increase. */
  lemma {:induction false} ChapterPositionsSorted(lines: seq<string>)
    ensures forall k :: 0 <= k < |ChapterPositions(lines)| ==> IsChapterLine(lines[ChapterPositions(lines)[k]])
    ensures forall k, m :: 0 <= k < m < |ChapterPositions(lines)| ==>
              ChapterPositions(lines)[k] < ChapterPositions(lines)[m]
  {
    if lines != [] {
      var n := |lines| - 1;
      var front := lines[..n];
      ChapterPositionsSorted(front);
      var ps := ChapterPositions(front);
      assert forall k :: 0 <= k < |ps| ==> front[ps[k]] == lines[ps[k]];
    }
  }

  /** Every chapter line has its position listed. */
  lemma {:induction false} ChapterPositionsComplete(lines: seq<string>, j: nat)
    requires j < |lines| && IsChapterLine(lines[j])
    ensures j in ChapterPositions(lines)
  {
    var n := |lines| - 1;
    if j < n {
      var front := lines[..n];
      assert front[j] == lines[j];
      ChapterPositionsComplete(front, j);
    }
  }

  /** Entries keep the order of their source lines: the k-th entry is the
      entry of the k-th chapter line, for every chapter line and no other. */
  lemma {:induction false} EntriesInSourceOrder(lines: seq<string>)
    ensures |EntriesOf(lines)| == |ChapterPositions(lines)|
    ensures forall k :: 0 <= k < |EntriesOf(lines)| ==>
              EntriesOf(lines)[k] == Entry(lines[ChapterPositions(lines)[k]])
  {
    if lines != [] {
      var n := |lines| - 1;
      var front := lines[..n];
      EntriesInSourceOrder(front);
      var es, ps := EntriesOf(front), ChapterPositions(front);
      var more := LineEntries(lines[n]);
      assert EntriesOf(lines) == es + more;
      assert ChapterPositions(lines) == ps + (if IsChapterLine(lines[n]) then [n] else []);
      forall k | 0 <= k < |es + more|
        ensures (es + more)[k] == Entry(lines[ChapterPositions(lines)[k]])
      {
        if k < |es| {
          assert (es + more)[k] == es[k];
          assert ChapterPositions(lines)[k] == ps[k];
          assert front[ps[k]] == lines[ps[k]];
        } else {
          assert (es + more)[k] == Entry(lines[n]);
          assert ChapterPositions(lines)[k] == n;
        }
      }
    }
  }

  // ---------------------------------------------------------------------------
  // Properties of the written text

  /** Exploding text that has a line h framed by blank lines in the middle. */
  lemma SplitAroundHeading(contents: string, h: string, block: string)
    requires '\n' !in h
    ensures Split(contents + ("\n\n" + h + "\n\n") + block, '\n')
            == Split(contents, '\n') + [[], h, []] + Split(block, '\n')
  {
    var t3 := [] + ['\n'] + block;
    var t2 := h + ['\n'] + t3;
    var t1 := [] + ['\n'] + t2;
    assert contents + ("\n\n" + h + "\n\n") + block == contents + ['\n'] + t1;
    SplitWithoutSeparator([], '\n');
    SplitWithoutSeparator(h, '\n');
    SplitConcat([], block, '\n');
    SplitConcat(h, t3, '\n');
    SplitConcat([], t2, '\n');
    SplitConcat(contents, t1, '\n');
  }

  /** The written text splits into the original lines, an empty line, the
      block heading, an empty line and the entries; with no entries the last
      line is empty. So the joined block splits back into the entry list. */
  lemma TransformLines(contents: string)
    ensures Split(Transform(contents), '\n')
            == Split(contents, '\n') + [[], BlockHeading, []]
               + (if Entries(contents) == [] then [[]] else Entries(contents))
  {
    EntriesHaveNoLineBreak(contents);
    SplitWritten(contents, Entries(contents));
  }

  /** The same for any list of lines without line breaks in place of the
      entries. */
  lemma SplitWritten(contents: string, es: seq<string>)
    requires forall k :: 0 <= k < |es| ==> '\n' !in es[k]
    ensures Split(contents + BlockIntro + Join(es, '\n'), '\n')
            == Split(contents, '\n') + [[], BlockHeading, []] + (if es == [] then [[]] else es)
  {
    var block := Join(es, '\n');
    assert '\n' !in BlockHeading by { BlockTitle(); }
    SplitAroundHeading(contents, BlockHeading, block);
    SplitJoin(es, '\n');
  }

  /** A line of two '#' followed by text without '#' is a chapter line whose
      label is that text, trimmed: "## Introduction" gives "0:00 Introduction". */
  lemma {:induction false} SecondLevelHeading(t: string)
    requires '#' !in t
    ensures LineEntries("##" + t) == [Marker + Trim(t)]
  {
    var line := "##" + t;
    assert line == "#" + ("#" + t);
    RemoveAppend("#", "#" + t, '#');
    RemoveAppend("#", t, '#');
    RemoveAbsent(t, '#');
    assert multiset(line) == multiset("##") + multiset(t);
    assert IsChapterLine(line);
    assert Remove(line, '#') == t;
    assert Label(line) == Trim(t);
    assert Entry(line) == Marker + Trim(t);
  }

  /** A heading line framed by two empty lines yields exactly its own entry. */
  lemma FramedHeading(h: string, t: string)
    requires '#' !in t && h == "##" + t
    ensures EntriesOf([[], h, []]) == [Marker + Trim(t)]
  {
    SecondLevelHeading(t);
    var lines: seq<string> := [[], h, []];
    assert lines[..2] == [[], h];
    assert lines[..2][..1] == [[]];
    assert EntriesOf([[]]) == [];
    assert EntriesOf([[], h]) == LineEntries(h);
  }

  /** The block heading yields the entry "0:00 YouTube chapters". */
  lemma BlockHeadingEntry()
    ensures EntriesOf([[], BlockHeading, []]) == [Marker + "YouTube chapters"]
  {
    BlockTitle();
    FramedHeading(BlockHeading, BlockTitleText);
  }

  /** The text after the two '#' of the block heading. */
  const BlockTitleText: string := " YouTube chapters"

  /** The block heading is two '#' and a '#'-free title that trims to
      "YouTube chapters". */
  lemma BlockTitle()
    ensures BlockHeading == "##" + BlockTitleText && '#' !in BlockTitleText
    ensures Trim(BlockTitleText) == "YouTube chapters"
  {
    var rest := BlockTitleText[1..];
    assert rest == "YouTube chapters";
    assert TrimLeft(BlockTitleText) == rest;
    assert TrimRight(rest) == rest;
  }

  /** A heading that ends in a parenthesised time. */
  const TimedHeading: string := "## Details (2:10)"

  /** The text after the two '#' of the timed heading. */
  const TimedTitle: string := " Details (2:10)"

  /** The timed heading is two '#' and a '#'-free title that trims to
      "Details (2:10)". */
  lemma TimedTitleParts()
    ensures TimedHeading == "##" + TimedTitle && '#' !in TimedTitle
    ensures Trim(TimedTitle) == "Details (2:10)"
  {
    var rest := TimedTitle[1..];
    assert rest == "Details (2:10)";
    assert TrimLeft(TimedTitle) == rest;
    assert TrimRight(rest) == rest;
  }

  /** A parenthesised time is not read as the marker: the entry keeps the
      constant marker and the parentheses stay in the label. */
  lemma TimedHeadingEntry()
    ensures LineEntries(TimedHeading) == [Marker + "Details (2:10)"]
  {
    TimedTitleParts();
    SecondLevelHeading(TimedTitle);
  }

  /** The transform is not idempotent: running it on its own output finds the
      old entries again and also the appended block heading, which holds
      exactly two '#', while the appended entries start with '0'. */
  lemma RetransformEntries(contents: string)
    ensures Entries(Transform(contents)) == Entries(contents) + [Marker + "YouTube chapters"]
  {
    var es := Entries(contents);
    var tail: seq<string> := if es == [] then [[]] else es;
    var lines := Split(contents, '\n');
    var middle: seq<string> := [[], BlockHeading, []];
    EntryLinesYieldNothing(contents);
    BlockHeadingEntry();
    TransformLines(contents);
    EntriesOfAppend(lines + middle, tail);
    EntriesOfAppend(lines, middle);
  }

  /** Re-reading the entry lines yields nothing, because each starts with '0';
      with no entries the one empty line yields nothing either. */
  lemma EntryLinesYieldNothing(contents: string)
    ensures var es := Entries(contents); EntriesOf(if es == [] then [[]] else es) == []
  {
    var es := Entries(contents);
    EntriesShape(contents);
    var tail: seq<string> := if es == [] then [[]] else es;
    forall j | 0 <= j < |tail| ensures tail[j] == [] || tail[j][0] != '#' {
      if es != [] {
        assert WellFormedEntry(es[j]);
        assert es[j][0] == es[j][..|Marker|][0] == Marker[0] == '0';
      }
    }
    EntriesNone(tail);
  }

  /** Lines that all start with a character other than '#' yield no entries. */
  lemma {:induction false} EntriesNone(lines: seq<string>)
    requires forall j :: 0 <= j < |lines| ==> lines[j] == [] || lines[j][0] != '#'
    ensures EntriesOf(lines) == []
  {
    if lines != [] {
      EntriesNone(lines[..|lines| - 1]);
    }
  }

  /** Running the script twice appends a second block, whose entries are the
      first block's followed by one for the first block's heading. */
  lemma TransformTwice(contents: string)
    ensures Transform(Transform(contents))
            == Transform(contents) + BlockIntro
               + Join(Entries(contents) + [Marker + "YouTube chapters"], '\n')
    ensures Transform(Transform(contents)) != Transform(contents)
  {
    RetransformEntries(contents);
  }

  // ---------------------------------------------------------------------------
  // The directory loop

  /** A name matched by glob('*.md') in the working directory: it ends in
      ".md" and does not begin with a dot, which '*' never matches. */
  predicate IsMarkdownName(name: string) {
    |name| >= 3 && name[|name| - 3..] == ".md" && name[0] != '.'
  }

  /** The files of the working directory, by name. */
  class Directory {
    var files: map<string, string>

    constructor (files: map<string, string>)
      ensures this.files == files
    {
      this.files := files;
    }

    /** Rewrites every Markdown file with its chapters appended. Each file's
        new contents depend on its own old contents only; no file is added
        or removed, and other files are unchanged. */
    method GenerateChapters()
      modifies this
      ensures files.Keys == old(files).Keys
      ensures forall name :: name in files ==>
                files[name] == if IsMarkdownName(name) then Transform(old(files)[name])
                               else old(files)[name]
    {
      var pending := set name | name in files && IsMarkdownName(name);
      ghost var done: set<string> := {};
      while pending != {}
        invariant files.Keys == old(files).Keys
        invariant pending <= files.Keys
        invariant forall name :: name in done ==> IsMarkdownName(name)
        invariant forall name :: name in pending ==> IsMarkdownName(name) && name !in done
        invariant forall name :: name in files && IsMarkdownName(name) ==> name in pending || name in done
        invariant forall name :: name in files ==>
                    files[name] == if name in done then Transform(old(files)[name])
                                   else old(files)[name]
        decreases pending
      {
        var file :| file in pending;
        var contents := files[file];
        var headings := CollectHeadings(contents);
        files := files[file := contents + BlockIntro + Join(headings, '\n')];
        pending := pending - {file};
        done := done + {file};
      }
    }
  }
}
