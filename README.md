# YouTube chapters from Markdown headings

A Dafny model of `bin/chapters.php`, the command-line script that appends a
"YouTube chapters" list to every Markdown file in the working directory.

For each file the script:

1. splits the contents on `"\n"`;
2. keeps a line only if its first character is `#` and the line holds exactly
   two `#` characters anywhere;
3. deletes every `#` from a kept line and trims it with PHP's default trim
   characters (space, tab, line feed, carriage return, NUL, vertical tab);
4. puts the constant marker `0:00 ` in front of the label;
5. writes back the original contents, then `"\n\n## YouTube chapters\n\n"`,
   then the entries joined with `"\n"`.

The model has two modules:

- `PhpStrings` (`php_strings.dfy`) models the PHP built-ins the script uses:
  `explode`/`implode` on one delimiter character (`Split`/`Join`),
  `substr_count` (`Count`), `str_replace` of one character by nothing
  (`Remove`), and `trim`/`ltrim`/`rtrim` (`Trim`, `TrimLeft`, `TrimRight`).
  `Count` is defined directly as the multiplicity of the character in the
  string. Each of the others has lemmas that state what it computes. For
  example, `Join` undoes `Split` and the reverse, and `Trim` keeps a contiguous
  piece of its input and cuts only trim characters.
- `Chapters` (`chapters.dfy`) holds the transform. `IsChapterLine`, `Label`,
  `Entry`, `EntriesOf`, `Entries` and `Transform` are its pure specification.
  `CollectHeadings` is the script's line loop: it grows the list of headings
  one line at a time and is proved equal to `Entries`. The outer loop over
  `glob('*.md')` is the class `Directory`. It holds the directory as a map
  from file name to contents. Its method `GenerateChapters` overwrites each
  Markdown file's contents with `Transform` of its old contents and leaves
  everything else as it was.

The script never reads a time out of the heading text. Every marker is the
constant `0:00`. A heading such as `## Details (2:10)` yields the entry
`0:00 Details (2:10)`, with the parentheses kept in the label
(`TimedHeadingEntry`). The model follows the script.

## Model

| member | source | states |
|---|---|---|
| PhpStrings.Count | bin/chapters.php:14 | substr_count on one character; defined as the character's multiplicity in the string, which is its meaning |
| PhpStrings.Remove | bin/chapters.php:18 | str_replace of `#` by nothing; meaning stated by `RemoveCounts` and `RemoveAppend` |
| PhpStrings.TrimLeft | bin/chapters.php:18 | ltrim; never longer than its input; meaning stated by `TrimLeftSpec` |
| PhpStrings.TrimRight | bin/chapters.php:18 | rtrim; never longer than its input; meaning stated by `TrimRightSpec` |
| PhpStrings.Trim | bin/chapters.php:18 | trim with the default characters; meaning stated by `TrimSpec` and `TrimKeepsCharacters` |
| PhpStrings.Join | bin/chapters.php:24 | implode; meaning stated by `JoinSplit` and `SplitJoin` |
| PhpStrings.Split | bin/chapters.php:10 | explode always yields at least one piece, and the empty string yields exactly one empty piece |
| PhpStrings.SplitPiecesLackSeparator | bin/chapters.php:10 | no piece produced by explode contains the delimiter |
| PhpStrings.SplitConcat | bin/chapters.php:10 | exploding `a + sep + b` gives the pieces of `a` followed by the pieces of `b` |
| PhpStrings.JoinSplit | bin/chapters.php:10 | implode undoes explode: joining the pieces gives back the original text |
| PhpStrings.SplitJoin | bin/chapters.php:24 | explode undoes implode when no piece holds the delimiter; the empty list becomes one empty piece |
| PhpStrings.RemoveCounts | bin/chapters.php:18 | after deleting `#`, no `#` is left and every other character occurs as often as before |
| PhpStrings.RemoveAppend | bin/chapters.php:18 | deletion works character by character, so the kept characters keep their order |
| PhpStrings.TrimLeftSpec | bin/chapters.php:18 | ltrim keeps a suffix that does not start with a trim character and cuts only trim characters |
| PhpStrings.TrimRightSpec | bin/chapters.php:18 | rtrim keeps a prefix that does not end with a trim character and cuts only trim characters |
| PhpStrings.TrimSpec | bin/chapters.php:18 | trim keeps a contiguous piece of its input, cuts only trim characters on both sides, and the piece neither starts nor ends with one |
| PhpStrings.TrimKeepsCharacters | bin/chapters.php:18 | trim adds no character: the multiset of the result is contained in that of the input |
| Chapters.IsChapterLine | bin/chapters.php:12-14 | the tests of lines 12 and 14; the iff with the script's outcome is stated by `LineSelection` |
| Chapters.Label | bin/chapters.php:18 | the label kept from a heading line; its shape is stated by `LabelShape` |
| Chapters.Entry | bin/chapters.php:20 | the marker `0:00 ` plus the label; its shape is stated by `EntryShape` |
| Chapters.LineEntries | bin/chapters.php:12-20 | what one line adds to `$headings`; stated by `LineSelection` |
| Chapters.Entries | bin/chapters.php:10-22 | the headings of a whole document; the loop `CollectHeadings` computes it, and `EntriesInSourceOrder`, `EntriesShape` and `RetransformEntries` state its meaning |
| Chapters.IsMarkdownName | bin/chapters.php:5 | the names the `*.md` pattern matches; used by `GenerateChapters` |
| Chapters.EntriesOf | bin/chapters.php:10-22 | there are never more entries than lines |
| Chapters.Transform | bin/chapters.php:24 | the original contents are an unmodified prefix of the written text |
| Chapters.CollectHeadings | bin/chapters.php:10-22 | the line loop that grows `$headings` computes exactly `Entries(contents)` |
| Chapters.EntriesOfAppend | bin/chapters.php:10-22 | the entries of two runs of lines are the entries of the first run followed by those of the second |
| Chapters.LineSelection | bin/chapters.php:12-16 | a single line yields an entry if and only if its first character is `#` and it holds exactly two `#`; that entry is its own |
| Chapters.FirstLevelRejected | bin/chapters.php:14 | `# T` is not selected |
| Chapters.ThirdLevelRejected | bin/chapters.php:14 | `### T` is not selected |
| Chapters.HashInTextRejected | bin/chapters.php:14 | `## C# x` is not selected |
| Chapters.AcceptedSample | bin/chapters.php:12-20 | `#a#` is selected, and its entry is `0:00 a` |
| Chapters.LabelShape | bin/chapters.php:18 | a label holds no `#`, neither starts nor ends with a trim character, and holds no line break when its line holds none |
| Chapters.EntryShape | bin/chapters.php:18-20 | the entry of a line without a line break starts with `0:00 `, followed by a well-formed label |
| Chapters.EntriesOfShape | bin/chapters.php:10-20 | for lines without line breaks, every entry starts with `0:00 ` followed by a `#`-free trimmed label, and holds no line break |
| Chapters.EntriesShape | bin/chapters.php:10-20 | every entry of a document starts with `0:00 `, its label holds no `#` and is trimmed, and it holds no line break |
| Chapters.EntriesHaveNoLineBreak | bin/chapters.php:10-20 | no entry of a document holds a line break |
| Chapters.ChapterPositions | bin/chapters.php:10-16 | every listed position is a line index |
| Chapters.ChapterPositionsSorted | bin/chapters.php:10-16 | every listed position holds a chapter line, and the positions strictly increase |
| Chapters.ChapterPositionsComplete | bin/chapters.php:10-16 | every chapter line's position is listed |
| Chapters.EntriesInSourceOrder | bin/chapters.php:10-21 | the k-th entry is the entry of the k-th chapter line, so entries keep their source order |
| Chapters.SplitAroundHeading | bin/chapters.php:24 | text with a line framed by blank lines in the middle splits into the lines before, that framed line, and the lines after |
| Chapters.SplitWritten | bin/chapters.php:24 | the written text splits into the original lines, `""`, the block heading, `""`, then the joined lines |
| Chapters.TransformLines | bin/chapters.php:24 | the written text splits into the original lines, `""`, `## YouTube chapters`, `""`, then exactly the entry list (one empty line when there are no entries) |
| Chapters.SecondLevelHeading | bin/chapters.php:12-20 | `##` followed by `#`-free text is selected, and its entry is `0:00 ` plus the trimmed text |
| Chapters.FramedHeading | bin/chapters.php:12-20 | a heading between two empty lines yields exactly its own entry |
| Chapters.BlockTitle | bin/chapters.php:24 | the appended heading is two `#` followed by `#`-free text that trims to `YouTube chapters` |
| Chapters.BlockHeadingEntry | bin/chapters.php:24 | the appended heading, read back, yields the entry `0:00 YouTube chapters` |
| Chapters.TimedTitleParts | bin/chapters.php:18 | `## Details (2:10)` is two `#` followed by `#`-free text that trims to `Details (2:10)` |
| Chapters.TimedHeadingEntry | bin/chapters.php:20 | a parenthesised time is not used as the marker: `## Details (2:10)` yields `0:00 Details (2:10)` |
| Chapters.EntryLinesYieldNothing | bin/chapters.php:12 | re-read entry lines yield no entries, because each starts with `0` |
| Chapters.EntriesNone | bin/chapters.php:12 | lines that are empty or do not start with `#` yield no entries |
| Chapters.RetransformEntries | bin/chapters.php:12-24 | the transform is not idempotent: the entries of the written text are the old entries followed by `0:00 YouTube chapters` |
| Chapters.TransformTwice | bin/chapters.php:24 | running the script twice appends a second block that lists the first block's entries and then `0:00 YouTube chapters`, so the text changes again |
| Chapters.Directory.GenerateChapters | bin/chapters.php:5-25 | each matched file's new contents are `Transform` of its own old contents; no file is added or removed; other files are unchanged |

## Left out

- File-system I/O (`glob`, `file_get_contents`, `file_put_contents`, bin/chapters.php:5,8,24) is not modelled. The directory is a map from file name to contents. `IsMarkdownName` stands for the `*.md` pattern: the name ends in `.md` and does not start with a dot.
- Read and write failures are not modelled. The script does not handle them. A failed read makes `file_get_contents` return `false`, which PHP would then treat as an empty string.
- Links are not modelled. The directory map treats distinct names as distinct files. If `a.md` and `b.md` are links to one file, the script transforms that file twice; if `a.md` links to a file with another name, the script changes that file too. `GenerateChapters` promises neither.
- The order in which `glob` lists the files is not modelled. It cannot change the result, because each file's new contents depend only on its own old contents.
- Entries whose `.md` name belongs to a directory rather than a file are not modelled.
- PHP strings are byte strings; the model uses Dafny characters. This does not change any result here. Every character the script looks at (`#`, `\n` and the trim characters) is a single ASCII byte, and in UTF-8 such a byte never occurs inside a multi-byte character.
- The plugin examples (plugin-developer-learning-pathway/07-Custom-Database-Tables/my-plugin.php, wpl-form-submissions.php) are not modelled. They are WordPress hook registration, SQL strings and option calls. All of their behaviour lives in framework code that is not part of this model.
- tutorials/6-4-improvement.php is not modelled. It holds Markdown notes, not program code; it is the kind of document the script reads.
