# Markdown link audit: a verified model

This project models, in Dafny, the link-reconciliation core of a small tool
that audits a Markdown book (an mdBook-style `SUMMARY.md` index and the files
beside it). The core has five parts:

- **Link extraction** (`src/parser.py`, module `Parser`). This part walks the
  token stream produced by the Markdown tokenizer. It collects one
  `(text, target)` record per `link_open` child with a non-empty href and one
  per `image` child, counting only the children the walk reaches. A
  `link_open` advances the shared child iterator once more to read its text.
  So the child right after such a `link_open` is never examined itself, even
  when it is an image or another `link_open`: a linked image
  `[![alt](pic.png)](page.md)` yields only the link's record. The walk is an
  imperative method with nested loops. It is proved equal to a recursive specification, `Extract`. That specification is in
  turn proved equal to an index-based reference, `ScanFrom`, which says which
  children are examined at all and which record each examined child yields.
- **The human-readable file filter** (`src/scanner.py`, module `Scanner`). The
  recursive directory listing is an input. The filter keeps regular files that
  have no dotted path part and whose pathlib suffix is not `.bin`.
- **Unreferenced files** (`src/unreferenced_files.py`, module
  `UnreferencedFiles`). This is `normalize_link_target` plus the set difference
  between the normalized scanned paths and the normalized link targets.
- **Broken links** (`src/broken_links.py`, module `BrokenLinks`). This is the
  order-preserving filter of links whose target does not exist. Existence is a
  function parameter.
- **The Markdown report** (`src/markdown_report.py`, module `MarkdownReport`).
  The four string builders are functions. `generate_markdown_report` is a
  method whose loop appends to a list that is then joined. It is proved equal
  to a specification, `Report`, whose exact shape is proved in lemmas.

`Wrappers` holds `Option`, `Result` and the Python exceptions the code raises.
`Sequences` holds generic helpers: subsequence, `"".join`, `'#' * n`, and
character counting.

The tool's documented design differs from its code in places. In each case
the model follows the code:

- Extraction does not classify links by kind. Section links (`#x`) come back as
  ordinary records, and `get_unreferenced_files` normalizes them like any other
  target.
- An image without `src` is not skipped. It yields a record whose target is
  `None`. Downstream this raises an `AttributeError` (`None.startswith`) in
  `get_unreferenced_files` and a `TypeError` (`Path / None`) in
  `get_broken_file_links`. The model returns both as `Failure` results.
- The suffix comparison is exact: `.BIN` is not excluded. There is no
  allow-list of extensions.
- The hidden-part test runs over every part of the full path, the root's parts
  included.

## Model

| member | source | states |
|---|---|---|
| Parser.ExtractLinksFromText | src/parser.py:63-98 | The nested walk, with the child iterator advanced inside the loop body, returns exactly `Extract(blocks)`: the records of the blocks, block after block. |
| Parser.ChildLinksAt | src/parser.py:80-96 | One step of the walk at child `i`: a consuming `link_open` yields its record and skips the next child, or yields `no link text` when it is last; an image yields one record; any other child yields nothing. |
| Parser.ChildLinksFrom | src/parser.py:79-96 | From any child the iterator actually reaches, the walk's records equal the index-based reference `ScanFrom`. |
| Parser.ChildLinksIsScan | src/parser.py:79-96 | The walk over an inline run equals the reference: records of examined `link_open`/`image` children in child order, where a child right after a consuming `link_open` is never examined. |
| Parser.RecordsFromChildren | src/parser.py:83-96 | Every record comes from an examined emitting child and carries that child's href or src verbatim. |
| Parser.ScanOrigin | src/parser.py:80-96 | Each record of the reference scan from child `from` on is the record of some examined emitting child at or after `from`. |
| Parser.ChildLinksBound | src/parser.py:80-96 | There are at most as many records as `link_open` plus `image` children. |
| Parser.ExtractAppend | src/parser.py:75-98 | Records only accumulate: the records of `a + b` are those of `a` followed by those of `b`. |
| Parser.NonInlineIgnored | src/parser.py:75-77 | Inserting a non-inline block anywhere leaves the records unchanged. |
| Parser.PlainChildIgnored | src/parser.py:80-96 | A child that is neither `link_open` nor `image`, and that nothing consumes, yields no record. |
| Parser.EmptyHrefYieldsNothing | src/parser.py:83-84 | A `link_open` with an absent or empty href yields nothing and does not consume the child after it. |
| Parser.LinkConsumesNext | src/parser.py:86-89 | A `link_open` with a non-empty href consumes the next child whatever it is. Its text is that child's stripped content for a `text` token, otherwise `no link text`. |
| Parser.LinkAtEnd | src/parser.py:86-89 | A `link_open` with a non-empty href that ends its run gets `no link text`. |
| Parser.ImageYieldsRecord | src/parser.py:92-96 | Every image the walk reaches yields exactly one record `(alt or "no alt text", src)`, even when `src` is absent. The record's text is never empty, and it differs from the sentinel only when it is the image's own alt. |
| Parser.LinkedImageSwallowed | src/parser.py:86-89 | An image right after a `link_open` with a non-empty href is consumed as the link's text source. It yields no record of its own, and the link gets `no link text`. |
| Parser.SpaceEnd | src/parser.py:87 | The first index at or after `i` that is not whitespace; everything between is whitespace. |
| Parser.SpaceStart | src/parser.py:87 | The index after the last non-whitespace character at or below `j` and above `lo`; everything after it up to `j` is whitespace. |
| Parser.Strip | src/parser.py:87 | `str.strip()` gives a contiguous piece of the text with only whitespace cut from either side and no whitespace at its ends. |
| Parser.StripCut | src/parser.py:87 | Cutting at the two whitespace bounds leaves only whitespace outside the cut and none at its ends. |
| Parser.StripUntrimmed | src/parser.py:87 | A text with no whitespace at either end strips to itself. |
| Scanner.LastIndexOf | src/scanner.py:30 | The index of the last occurrence of a character, or -1 when it does not occur. |
| Scanner.Suffix | src/scanner.py:30 | The pathlib suffix is empty, or it is a proper tail of the name that starts with its only dot, with at least one character before and after that dot. |
| Scanner.SuffixEmpty | src/scanner.py:30 | The suffix is empty iff the name ends with a dot or has no dot after its first character. |
| Scanner.SuffixOfExtension | src/scanner.py:30 | `stem.ext` has suffix `.ext`, and it is excluded iff `ext` is exactly `bin` (case-sensitive). |
| Scanner.FilterHumanReadable | src/scanner.py:26-31 | The result is a subsequence of the listing. An entry is in it iff it is in the listing, is a regular file, has no dotted part and has a suffix that is not excluded. Each kept entry occurs as often as in the listing. |
| Scanner.GetHumanReadableFiles | src/scanner.py:19-33 | A `ValueError` iff the argument is not a `str`/`Path`. A `str`/`Path` argument always succeeds, with an order-preserving subsequence of the listing. It holds only regular, non-hidden, non-`.bin` files, holds every such entry, and holds each kept entry as often as the listing does. |
| Scanner.DottedRootYieldsNothing | src/scanner.py:29 | A root with a dotted part (such as `..`) yields no files at all. |
| Scanner.NothingReadable | src/scanner.py:26-31 | A listing with no human-readable entry filters to nothing. |
| UnreferencedFiles.NormalizeLinkTarget | src/unreferenced_files.py:59-63 | The result starts with `./`, ends with the link and is at most two characters longer, and a link already starting with `./` is unchanged. |
| UnreferencedFiles.NormalizePrepends | src/unreferenced_files.py:63 | Any other link gets exactly `./` in front. |
| UnreferencedFiles.NormalizeIdempotent | src/unreferenced_files.py:63 | Normalizing twice is normalizing once. |
| UnreferencedFiles.NormalizeCollision | src/unreferenced_files.py:63 | Two links normalize alike iff they are equal, or one of them does not start with `./` and the other is that link with `./` in front. |
| UnreferencedFiles.GetUnreferencedFiles | src/unreferenced_files.py:25-57 | Three outcomes. A `ValueError` for a non-path argument. An `AttributeError` iff some link has no target. Otherwise success, with a set that is sound (each element is the normalized path of a scanned file not named like the index file), disjoint from the normalized targets, and complete. |
| UnreferencedFiles.UnreferencedDisjoint | src/unreferenced_files.py:46-52 | A successful result is disjoint from the set of normalized link targets. |
| UnreferencedFiles.IndexNamedExcluded | src/unreferenced_files.py:39-43 | A file named like the index file, in any subdirectory, is never reported, unless another file has the same normalized path. |
| UnreferencedFiles.AllLinkedNothingUnreferenced | src/unreferenced_files.py:39-52 | When every non-index file is some link's target, the result is empty. |
| UnreferencedFiles.RecursiveIgnored | src/unreferenced_files.py:25 | The `recursive` flag does not change the result. |
| BrokenLinks.GetBrokenFileLinks | src/broken_links.py:27-38 | A `TypeError` iff some link has no target. Otherwise an order-preserving subsequence of the links that holds a link iff its target does not exist under the base directory. Each broken link appears as often as in the input, duplicates included. |
| Sequences.FilterSubsequence | src/broken_links.py:35-38 | A filtering comprehension keeps its input's order: the result is a subsequence. |
| Sequences.FilterMembers | src/broken_links.py:35-38 | An element is in the filtered result iff it is in the input and satisfies the condition. |
| Sequences.FilterCounts | src/broken_links.py:35-38 | A kept element occurs in the result exactly as often as in the input; any other element does not occur. |
| Sequences.FilterAllKept | src/broken_links.py:35-38 | Filtering a sequence whose every element satisfies the condition returns it unchanged. |
| BrokenLinks.NoLinksNoneBroken | src/broken_links.py:35-38 | No links give no broken links. |
| BrokenLinks.BrokenIdempotent | src/broken_links.py:35-38 | Filtering the broken links again returns them unchanged. |
| BrokenLinks.SingleLink | src/broken_links.py:37 | A single link is reported, unchanged, iff its target does not exist. |
| BrokenLinks.GetBrokenLinks | src/broken_links.py:14-25 | The corrected wrapper raises `FileNotFoundError` iff the path is not a regular file. For a regular file it raises `TypeError` iff some link has no target. Otherwise it succeeds and yields the broken links among the file's links: an order-preserving subsequence that holds each broken link as often as the input does, and no other link. |
| BrokenLinks.BrokenLinksAsWrittenAlwaysFails | src/broken_links.py:23 | As written, a regular file always ends in a `TypeError`, even when the corrected wrapper succeeds. |
| MarkdownReport.MdLinkLayout | src/markdown_report.py:56-57 | A link is `[`, the text, `](`, the target and `)`, with those exact positions and length. |
| MarkdownReport.MdHeadingLayout | src/markdown_report.py:59-60 | A heading is a line break, `level` hashes (none for a negative level; two by default), a space, the text and two line breaks. |
| Sequences.Repeat | src/markdown_report.py:60 | `'#' * level` has `level` characters, or none when `level` is negative, and all of them are `#`. |
| MarkdownReport.MdListItemLayout | src/markdown_report.py:62-63 | A list item is `+ `, the text and a line break. |
| MarkdownReport.MdListItemLinkFlat | src/markdown_report.py:65-66 | A list-item link is `+ [text](target)` followed by a line break. |
| MarkdownReport.BasenameLayout | src/markdown_report.py:51 | `os.path.basename` returns the longest tail of the path without a `/`: it is the whole path or follows a `/`. |
| MarkdownReport.BasenameWithin | src/markdown_report.py:51 | The basename holds no character the path does not hold. |
| MarkdownReport.ListItemsAt | src/markdown_report.py:49-52 | One list item per file, and the k-th item is the link to the k-th file, with its basename as text and its full path as target. |
| MarkdownReport.ListItemsSnoc | src/markdown_report.py:49-52 | Handling one more file appends exactly its list item. |
| MarkdownReport.GenerateMarkdownReport | src/markdown_report.py:31-54 | The joined output is `Report(files, main_index_file)`, with `main_index_file` defaulting to `SUMMARY.md`. The `broken_links` argument defaults to `None` and has no effect on the output. |
| MarkdownReport.ReportStartsWithHeading | src/markdown_report.py:41-43 | Every report begins with the heading for the index file. |
| MarkdownReport.ReportHeadingText | src/markdown_report.py:41-43 | That heading is `"\n## Unreferenced files in " + main_index_file + "\n\n"`. |
| MarkdownReport.ReportWhenEmpty | src/markdown_report.py:45-46 | With no files, the report is the heading followed by `**None**` and a line break. |
| MarkdownReport.ReportWhenNonEmpty | src/markdown_report.py:48-52 | Otherwise the report is the heading followed by the joined list items, in input order. |
| MarkdownReport.ListItemOneLine | src/markdown_report.py:62-66 | A list-item link whose text and target hold no line break is exactly one line. |
| MarkdownReport.ListItemsLines | src/markdown_report.py:49-52 | The joined list items hold one line break per file. |
| MarkdownReport.HeadingLines | src/markdown_report.py:59-60 | The report heading holds three line breaks. |
| MarkdownReport.ReportLineCount | src/markdown_report.py:31-54 | When no name holds a line break, the report holds 3 + max(1, number of files) line breaks. |

## Left out

- Tokenization by `MarkdownIt` (src/parser.py:71-72) is an external library. The model takes its output as input: a sequence of blocks, each inline with its children or anything else.
- `read_file` and `extract_links_from_file` (src/parser.py:22-61) read files. They are not modelled. `get_unreferenced_files` and the broken-link functions take the extracted links as a parameter.
- Directory traversal (`rglob`, `is_file`; src/scanner.py:27-28) is an input listing. Each entry carries the parts of its full path and whether it is a regular file.
- `Path.relative_to` and `str()` (src/unreferenced_files.py:40) are not modelled. Each scanned file arrives as its relative path string and its name.
- `resolve().exists()` (src/broken_links.py:37) is the `pathExists` parameter. `..` and symbolic links are not resolved.
- `print` calls (src/unreferenced_files.py:55, src/broken_links.py:25) are output only. The corrected `get_broken_links` returns the links it would print.
- UnreferencedFiles.GetUnreferencedFiles: a missing or non-regular index file raises `FileNotFoundError` from `read_file` (src/parser.py:57-58). That outcome is not modelled, because the index file's links arrive already extracted.
- UnreferencedFiles.GetUnreferencedFiles: the result is a set. Python returns `list(set(...))`, whose order depends on hashing and is not modelled.
- `get_broken_section_links` (src/broken_links.py:40-41) is an empty stub.
- src/missing_files.py, src/markdown_output.py and src/main.py are not part of this model. They are a script with hard-coded paths, a declaration without a body, and process wiring.
- Basename follows POSIX `os.path.basename` only. Strip follows `str.isspace()` over Unicode scalar values.
- BrokenLinks.GetBrokenLinks: the corrected wrapper checks every extracted link, section links (`#x`) included, so a section link is reported as broken unless `pathExists` holds for it. The key `"file links"` suggests only file links were meant, but the code has no way to tell them apart.

## Findings

| source | as written | input that shows it | evidently intended | confidence | as-written member | corrected member |
|---|---|---|---|---|---|---|
| src/broken_links.py:23 | `links["file links"]` indexes the list returned by `extract_links_from_file` with a string, which raises `TypeError` | any regular Markdown file, for example one with no links | check the file's own links against its directory and report the broken ones | high; not executed | BrokenLinks.GetBrokenLinksAsWritten, BrokenLinks.BrokenLinksAsWrittenAlwaysFails | BrokenLinks.GetBrokenLinks |
