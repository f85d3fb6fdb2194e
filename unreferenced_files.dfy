/**
 * Files present beside an index file but never linked from it
 * (src/unreferenced_files.py).
 *
 * The scan of the index file's directory and the links extracted from the
 * index file are inputs: each scanned file by its path relative to that
 * directory (as a string) and its file name.
 */
module UnreferencedFiles {
  import opened Wrappers
  import Parser
  import Scanner

  datatype ScannedFile = ScannedFile(relPath: string, name: string)

  /** `normalize_link_target`: the link, prefixed with `./` unless it already starts so. */
  function NormalizeLinkTarget(link: string): (r: string)
    ensures "./" <= r
    ensures |link| <= |r| <= |link| + 2 && r[|r| - |link|..] == link
    ensures "./" <= link ==> r == link
  {
    if "./" <= link then link else "./" + link
  }

  /** Normalizing twice is normalizing once. */
  lemma NormalizeIdempotent(link: string)
    ensures NormalizeLinkTarget(NormalizeLinkTarget(link)) == NormalizeLinkTarget(link)
  {
  }

  /** A link not starting with `./` gets exactly `./` in front of it. */
  lemma NormalizePrepends(link: string)
    requires !("./" <= link)
    ensures NormalizeLinkTarget(link) == "./" + link
  {
  }

  /**
   * Two links normalize alike iff they are equal or one is the other, not
   * starting with `./`, with `./` in front.
   */
  lemma NormalizeCollision(x: string, y: string)
    ensures NormalizeLinkTarget(x) == NormalizeLinkTarget(y) <==>
      x == y || (!("./" <= x) && "./" + x == y) || (!("./" <= y) && x == "./" + y)
  {
    if !("./" <= x) && !("./" <= y) && NormalizeLinkTarget(x) == NormalizeLinkTarget(y) {
      assert x == ("./" + x)[2..];
    }
  }

  /** Every extracted link has a target (images without `src` yield `None`). */
  predicate AllTargets(links: seq<Parser.Link>)
  {
    forall k :: 0 <= k < |links| ==> links[k].target.Some?
  }

  /** Some link's target normalizes to `path`. */
  predicate LinkedTo(links: seq<Parser.Link>, path: string)
  {
    exists k :: 0 <= k < |links| && links[k].target.Some? && NormalizeLinkTarget(links[k].target.value) == path
  }

  /** The normalized paths of the scanned files whose name differs from the index file's. */
  function HumanReadablePaths(indexName: string, scanned: seq<ScannedFile>): set<string>
  {
    set f | f in scanned && f.name != indexName :: NormalizeLinkTarget(f.relPath)
  }

  /** The normalized targets of all links, section links and images included. */
  function ReferencedLinks(links: seq<Parser.Link>): set<string>
    requires AllTargets(links)
  {
    set k | 0 <= k < |links| :: NormalizeLinkTarget(links[k].target.value)
  }

  /**
   * `get_unreferenced_files(index_file, recursive)`: a `ValueError` unless the
   * index file is a `str` or `Path`; an `AttributeError` when a link has no
   * target; otherwise the normalized non-index file paths no link refers to.
   * `recursive` is accepted and ignored.
   */
  function GetUnreferencedFiles(indexFile: PathArg, scanned: seq<ScannedFile>, links: seq<Parser.Link>, recursive: bool)
    : (r: Result<set<string>>)
    ensures indexFile.NotPathLike? ==> r == Failure(ValueError)
    ensures indexFile.PathLike? ==> (r == Failure(AttributeError) <==> !AllTargets(links))
    ensures indexFile.PathLike? && AllTargets(links) ==> r.Success?
    ensures r.Success? ==> forall x :: x in r.value ==>
      (exists f :: f in scanned && f.name != Scanner.Name(indexFile.parts) && NormalizeLinkTarget(f.relPath) == x)
    ensures r.Success? ==> forall k :: 0 <= k < |links| ==> NormalizeLinkTarget(links[k].target.value) !in r.value
    ensures r.Success? ==>
      forall f :: f in scanned && f.name != Scanner.Name(indexFile.parts) && !LinkedTo(links, NormalizeLinkTarget(f.relPath))
        ==> NormalizeLinkTarget(f.relPath) in r.value
  {
    if indexFile.NotPathLike? then Failure(ValueError)
    else if !AllTargets(links) then Failure(AttributeError)
    else Success(HumanReadablePaths(Scanner.Name(indexFile.parts), scanned) - ReferencedLinks(links))
  }

  /** The result is disjoint from the normalized link targets. */
  lemma UnreferencedDisjoint(indexFile: PathArg, scanned: seq<ScannedFile>, links: seq<Parser.Link>, recursive: bool)
    requires GetUnreferencedFiles(indexFile, scanned, links, recursive).Success?
    ensures AllTargets(links)
    ensures GetUnreferencedFiles(indexFile, scanned, links, recursive).value !! ReferencedLinks(links)
  {
  }

  /** The `recursive` flag makes no difference. */
  lemma RecursiveIgnored(indexFile: PathArg, scanned: seq<ScannedFile>, links: seq<Parser.Link>)
    ensures GetUnreferencedFiles(indexFile, scanned, links, true) == GetUnreferencedFiles(indexFile, scanned, links, false)
  {
  }

  /**
   * A file named like the index file, in any directory, is never reported,
   * unless a differently named file has the same normalized path.
   */
  lemma IndexNamedExcluded(parts: seq<string>, scanned: seq<ScannedFile>, links: seq<Parser.Link>, recursive: bool, f: ScannedFile)
    requires f in scanned && f.name == Scanner.Name(parts)
    requires forall g :: g in scanned && g.name != Scanner.Name(parts) ==> NormalizeLinkTarget(g.relPath) != NormalizeLinkTarget(f.relPath)
    requires AllTargets(links)
    ensures GetUnreferencedFiles(PathLike(parts), scanned, links, recursive).Success?
    ensures NormalizeLinkTarget(f.relPath) !in GetUnreferencedFiles(PathLike(parts), scanned, links, recursive).value
  {
  }

  /** When every non-index file is the target of some link, nothing is unreferenced. */
  lemma AllLinkedNothingUnreferenced(parts: seq<string>, scanned: seq<ScannedFile>, links: seq<Parser.Link>, recursive: bool)
    requires AllTargets(links)
    requires forall f :: f in scanned && f.name != Scanner.Name(parts) ==>
      exists k :: 0 <= k < |links| && links[k].target == Some(f.relPath)
    ensures GetUnreferencedFiles(PathLike(parts), scanned, links, recursive) == Success({})
  {
    forall f | f in scanned && f.name != Scanner.Name(parts)
      ensures NormalizeLinkTarget(f.relPath) in ReferencedLinks(links)
    {
      var k :| 0 <= k < |links| && links[k].target == Some(f.relPath);
      assert NormalizeLinkTarget(links[k].target.value) == NormalizeLinkTarget(f.relPath);
    }
    assert HumanReadablePaths(Scanner.Name(parts), scanned) <= ReferencedLinks(links);
    assert HumanReadablePaths(Scanner.Name(parts), scanned) - ReferencedLinks(links) == {};
  }
}
