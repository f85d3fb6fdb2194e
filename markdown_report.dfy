/**
 * The copy-paste-ready Markdown report (src/markdown_report.py).
 */
module MarkdownReport {
  import opened Wrappers
  import opened Sequences

  /** `broken_links`: a file name to the lines describing its broken links. */
  type BrokenLinkMap = map<string, seq<string>>

  /** The level of the report's heading. */
  const ReportHeadingLevel: int := 2
  /** What the report says when no file is unreferenced. */
  const NoneMarker: string := "**None**\n"

  /** `md_link(text, target)`: the text in brackets, then the target in parentheses. */
  function MdLink(text: string, target: string): string
  {
    "[" + text + "](" + target + ")"
  }

  /** `md_heading(text, level)`: `level` hashes, a space and the text, between blank lines. */
  function MdHeading(text: string, level: int := 2): string
  {
    "\n" + Repeat('#', level) + " " + text + "\n\n"
  }

  /** `md_list_item(text)`: `+ `, the text, and a line end. */
  function MdListItem(text: string): string
  {
    "+ " + text + "\n"
  }

  /** `md_list_item_link(text, target)`: a list item holding the link. */
  function MdListItemLink(text: string, target: string): string
  {
    MdListItem(MdLink(text, target))
  }

  /** A link reads back as its text between brackets and its target between parentheses. */
  lemma MdLinkLayout(text: string, target: string)
    ensures var r := MdLink(text, target);
      && |r| == |text| + |target| + 4
      && r[0] == '[' && r[1..|text| + 1] == text && r[|text| + 1..|text| + 3] == "]("
      && r[|text| + 3..|r| - 1] == target && r[|r| - 1] == ')'
  {
    var r := MdLink(text, target);
    assert r == ("[" + text) + ("](" + target + ")");
  }

  /**
   * A heading reads back as a line break, `level` hashes (none for a negative
   * level), a space, the text, and two line breaks.
   */
  lemma MdHeadingLayout(text: string, level: int)
    ensures var r, n := MdHeading(text, level), if level < 0 then 0 else level;
      && |r| == n + |text| + 4
      && r[0] == '\n' && (forall i :: 1 <= i <= n ==> r[i] == '#') && r[n + 1] == ' '
      && r[n + 2..|r| - 2] == text && r[|r| - 2..] == "\n\n"
  {
    var r, n := MdHeading(text, level), if level < 0 then 0 else level;
    var hashes := Repeat('#', level);
    assert r == ("\n" + hashes + " ") + (text + "\n\n");
    assert forall i :: 1 <= i <= n ==> r[i] == hashes[i - 1];
  }

  /** A list item reads back as `+ `, the text, and a line end. */
  lemma MdListItemLayout(text: string)
    ensures var r := MdListItem(text);
      |r| == |text| + 3 && r[..2] == "+ " && r[2..|r| - 1] == text && r[|r| - 1] == '\n'
  {
  }

  /** A list-item link is the list item of the link, written out flat. */
  lemma MdListItemLinkFlat(text: string, target: string)
    ensures MdListItemLink(text, target) == "+ [" + text + "](" + target + ")\n"
  {
  }

  /** `os.path.basename` (POSIX): what follows the last `/`, or the whole path without one. */
  function Basename(path: string): string
  {
    if path == [] || path[|path| - 1] == '/' then "" else Basename(path[..|path| - 1]) + [path[|path| - 1]]
  }

  /**
   * The basename is the longest end of the path without a `/`: it holds no
   * `/`, and it is the whole path or stands right after a `/`.
   */
  lemma {:induction false} BasenameLayout(path: string)
    ensures var r := Basename(path);
      && |r| <= |path| && r == path[|path| - |r|..]
      && (forall i :: 0 <= i < |r| ==> r[i] != '/')
      && (|r| == |path| || path[|path| - |r| - 1] == '/')
    decreases |path|
  {
    if path != [] && path[|path| - 1] != '/' {
      var init := path[..|path| - 1];
      BasenameLayout(init);
      var b := Basename(init);
      assert init[|init| - |b|..] + [path[|path| - 1]] == path[|path| - |b| - 1..];
    }
  }

  /** The heading every report starts with. */
  function ReportHeading(mainIndexFile: string): string
  {
    MdHeading("Unreferenced files in " + mainIndexFile, ReportHeadingLevel)
  }

  /** One list-item link per file, in order: the basename as text, the full path as target. */
  function ListItems(files: seq<string>): seq<string>
  {
    if files == [] then [] else ListItems(files[..|files| - 1]) + [ListItem(files[|files| - 1])]
  }

  /** The list holds exactly one item per file, the k-th for the k-th file. */
  lemma {:induction false} ListItemsAt(files: seq<string>)
    ensures |ListItems(files)| == |files|
    ensures forall k :: 0 <= k < |files| ==> ListItems(files)[k] == ListItem(files[k])
    decreases |files|
  {
    if files != [] {
      var init := files[..|files| - 1];
      ListItemsAt(init);
      assert forall k :: 0 <= k < |init| ==> init[k] == files[k];
    }
  }

  /** One more file adds its list item at the end. */
  lemma ListItemsSnoc(files: seq<string>, i: nat)
    requires i < |files|
    ensures ListItems(files[..i + 1]) == ListItems(files[..i]) + [ListItem(files[i])]
  {
    assert files[..i + 1][..i] == files[..i];
  }

  /** `md_list_item_link(os.path.basename(file), file)`. */
  function ListItem(file: string): string
  {
    MdListItemLink(Basename(file), file)
  }

  /** The pieces the report is joined from. */
  function ReportParts(files: seq<string>, mainIndexFile: string): seq<string>
  {
    [ReportHeading(mainIndexFile)] + if files == [] then [NoneMarker] else ListItems(files)
  }

  function Report(files: seq<string>, mainIndexFile: string): string
  {
    Concat(ReportParts(files, mainIndexFile))
  }

  /**
   * `generate_markdown_report(unreferenced_files, broken_links, main_index_file=...)`:
   * appends the pieces to a list in a loop, then joins them. `broken_links` is not read.
   */
  method GenerateMarkdownReport(unreferencedFiles: seq<string>, brokenLinks: Option<BrokenLinkMap> := None,
                                mainIndexFile: string := "SUMMARY.md")
    returns (report: string)
    ensures report == Report(unreferencedFiles, mainIndexFile)
  {
    var markdownOutput: seq<string> := [];
    markdownOutput := markdownOutput + [ReportHeading(mainIndexFile)];
    if |unreferencedFiles| == 0 {
      markdownOutput := markdownOutput + [NoneMarker];
      assert unreferencedFiles == [];
    } else {
      for i := 0 to |unreferencedFiles|
        invariant markdownOutput == [ReportHeading(mainIndexFile)] + ListItems(unreferencedFiles[..i])
      {
        var file := unreferencedFiles[i];
        ghost var done := ListItems(unreferencedFiles[..i]);
        ListItemsSnoc(unreferencedFiles, i);
        markdownOutput := markdownOutput + [MdListItemLink(Basename(file), file)];
        assert markdownOutput == [ReportHeading(mainIndexFile)] + (done + [ListItem(file)]);
      }
      assert unreferencedFiles[..|unreferencedFiles|] == unreferencedFiles;
    }
    assert markdownOutput == ReportParts(unreferencedFiles, mainIndexFile);
    report := Concat(markdownOutput);
  }

  /** Every report begins with the level-2 heading naming the index file. */
  lemma ReportStartsWithHeading(files: seq<string>, mainIndexFile: string)
    ensures ReportHeading(mainIndexFile) <= Report(files, mainIndexFile)
  {
    var rest := if files == [] then [NoneMarker] else ListItems(files);
    ConcatAppend([ReportHeading(mainIndexFile)], rest);
    assert Concat([ReportHeading(mainIndexFile)]) == ReportHeading(mainIndexFile) by {
      assert [ReportHeading(mainIndexFile)][..0] == [];
    }
  }

  /** That heading is a level-2 heading whose text names the index file. */
  lemma ReportHeadingText(mainIndexFile: string)
    ensures ReportHeading(mainIndexFile) == "\n## " + ("Unreferenced files in " + mainIndexFile) + "\n\n"
  {
    assert Repeat('#', 2) == "##";
  }

  /** With no unreferenced file, the report is the heading and `**None**`. */
  lemma ReportWhenEmpty(mainIndexFile: string)
    ensures Report([], mainIndexFile) == ReportHeading(mainIndexFile) + NoneMarker
  {
    ConcatAppend([ReportHeading(mainIndexFile)], [NoneMarker]);
    ConcatSingle(ReportHeading(mainIndexFile));
    ConcatSingle(NoneMarker);
  }

  /** Otherwise the heading is followed by the list items, one per file, in input order. */
  lemma ReportWhenNonEmpty(files: seq<string>, mainIndexFile: string)
    requires files != []
    ensures Report(files, mainIndexFile) == ReportHeading(mainIndexFile) + Concat(ListItems(files))
  {
    ConcatAppend([ReportHeading(mainIndexFile)], ListItems(files));
    ConcatSingle(ReportHeading(mainIndexFile));
  }

  /** A string without the character holds none of it. */
  lemma {:induction false} CountAbsent(c: char, s: string)
    requires c !in s
    ensures Count(c, s) == 0
    decreases |s|
  {
    if s != [] {
      assert s == s[..|s| - 1] + [s[|s| - 1]];
      CountAbsent(c, s[..|s| - 1]);
    }
  }

  lemma CountOne(c: char)
    ensures Count(c, [c]) == 1
  {
    assert [c][..0] == [];
  }

  /** The basename holds only characters of the path. */
  lemma {:induction false} BasenameWithin(c: char, path: string)
    requires c !in path
    ensures c !in Basename(path)
    decreases |path|
  {
    if path != [] && path[|path| - 1] != '/' {
      assert path == path[..|path| - 1] + [path[|path| - 1]];
      BasenameWithin(c, path[..|path| - 1]);
    }
  }

  /** A list item whose text and target hold no line break is exactly one line. */
  lemma ListItemOneLine(text: string, target: string)
    requires '\n' !in text && '\n' !in target
    ensures Count('\n', MdListItemLink(text, target)) == 1
  {
    var link := MdLink(text, target);
    assert '\n' !in link;
    assert '\n' !in "+ " + link;
    CountAbsent('\n', "+ " + link);
    CountOne('\n');
    CountAppend('\n', "+ " + link, "\n");
  }

  lemma {:induction false} ListItemsLines(files: seq<string>)
    requires forall k :: 0 <= k < |files| ==> '\n' !in files[k]
    ensures Count('\n', Concat(ListItems(files))) == |files|
    decreases |files|
  {
    if files != [] {
      var init, last := files[..|files| - 1], files[|files| - 1];
      ListItemsLines(init);
      BasenameWithin('\n', last);
      ListItemOneLine(Basename(last), last);
      ConcatAppend(ListItems(init), [ListItem(last)]);
      ConcatSingle(ListItem(last));
      CountAppend('\n', Concat(ListItems(init)), ListItem(last));
    }
  }

  /** The heading holds three line breaks when the index file name holds none. */
  lemma HeadingLines(mainIndexFile: string)
    requires '\n' !in mainIndexFile
    ensures Count('\n', ReportHeading(mainIndexFile)) == 3
  {
    var title := "Unreferenced files in " + mainIndexFile;
    var hashes := Repeat('#', ReportHeadingLevel);
    CountOne('\n');
    CountAbsent('\n', hashes);
    CountAbsent('\n', " ");
    CountAbsent('\n', title);
    CountAppend('\n', "\n", "\n");
    CountAppend('\n', "\n", hashes);
    CountAppend('\n', "\n" + hashes, " ");
    CountAppend('\n', "\n" + hashes + " ", title);
    CountAppend('\n', "\n" + hashes + " " + title, "\n\n");
  }

  /**
   * When neither the index file name nor any path holds a line break, the
   * report has three line breaks for the heading and one per file (one for
   * `**None**` when there is none).
   */
  lemma ReportLineCount(files: seq<string>, mainIndexFile: string)
    requires '\n' !in mainIndexFile
    requires forall k :: 0 <= k < |files| ==> '\n' !in files[k]
    ensures Count('\n', Report(files, mainIndexFile)) == 3 + if files == [] then 1 else |files|
  {
    HeadingLines(mainIndexFile);
    if files == [] {
      ReportWhenEmpty(mainIndexFile);
      CountAbsent('\n', "**None**");
      assert NoneMarker[..|NoneMarker| - 1] == "**None**";
      CountAppend('\n', ReportHeading(mainIndexFile), NoneMarker);
    } else {
      ReportWhenNonEmpty(files, mainIndexFile);
      ListItemsLines(files);
      CountAppend('\n', ReportHeading(mainIndexFile), Concat(ListItems(files)));
    }
  }
}
