/**
 * Links whose target does not exist (src/broken_links.py).
 *
 * The filesystem is an input: `pathExists(baseDir, target)` says whether
 * `(baseDir / target).resolve()` names an existing file or directory.
 */
module BrokenLinks {
  import opened Wrappers
  import opened Sequences
  import Parser

  /** The link's target exists under `baseDir`; a link without a target has none to test. */
  predicate Resolves(l: Parser.Link, baseDir: string, pathExists: (string, string) -> bool)
    requires l.target.Some?
  {
    pathExists(baseDir, l.target.value)
  }

  /** A link whose target is present and does not exist under `baseDir`. */
  predicate Broken(l: Parser.Link, baseDir: string, pathExists: (string, string) -> bool)
  {
    l.target.Some? && !pathExists(baseDir, l.target.value)
  }

  /** Some link has no target (an image without `src`). */
  predicate SomeTargetMissing(links: seq<Parser.Link>)
  {
    exists k :: 0 <= k < |links| && links[k].target.None?
  }

  /**
   * `get_broken_file_links(file_links, base_dir)`: the links whose target does
   * not exist, unchanged and in their order; `base_dir / None` raises a
   * `TypeError` for a link without a target. The comprehension raises at the
   * first such link; testing for one before filtering gives the same outcome,
   * because the existence tests have no effect.
   */
  function GetBrokenFileLinks(links: seq<Parser.Link>, baseDir: string, pathExists: (string, string) -> bool)
    : (r: Result<seq<Parser.Link>>)
    ensures r.Failure? <==> exists k :: 0 <= k < |links| && links[k].target.None?
    ensures r.Failure? ==> r.error == TypeError
    ensures r.Success? ==> IsSubsequence(r.value, links)
    ensures r.Success? ==> forall l :: l in r.value <==> l in links && !Resolves(l, baseDir, pathExists)
    ensures r.Success? ==> forall l :: l in links ==>
      multiset(r.value)[l] == if Resolves(l, baseDir, pathExists) then 0 else multiset(links)[l]
  {
    if SomeTargetMissing(links) then Failure(TypeError)
    else
      var broken := (l: Parser.Link) => Broken(l, baseDir, pathExists);
      FilterSubsequence(broken, links);
      FilterMembers(broken, links);
      FilterCounts(broken, links);
      Success(Filter(broken, links))
  }

  /** No links, no broken links. */
  lemma NoLinksNoneBroken(baseDir: string, pathExists: (string, string) -> bool)
    ensures GetBrokenFileLinks([], baseDir, pathExists) == Success([])
  {
  }

  /** Filtering the broken links again gives them back unchanged. */
  lemma BrokenIdempotent(links: seq<Parser.Link>, baseDir: string, pathExists: (string, string) -> bool)
    requires GetBrokenFileLinks(links, baseDir, pathExists).Success?
    ensures var broken := GetBrokenFileLinks(links, baseDir, pathExists).value;
      GetBrokenFileLinks(broken, baseDir, pathExists) == Success(broken)
  {
    var p := (l: Parser.Link) => Broken(l, baseDir, pathExists);
    var broken := Filter(p, links);
    FilterAllKept(p, broken);
    assert !SomeTargetMissing(broken) by {
      forall k | 0 <= k < |broken|
        ensures broken[k].target.Some?
      {
        assert broken[k] in broken;
      }
    }
  }

  /** A single link is reported iff its target does not exist. */
  lemma SingleLink(l: Parser.Link, baseDir: string, pathExists: (string, string) -> bool)
    requires l.target.Some?
    ensures GetBrokenFileLinks([l], baseDir, pathExists)
         == Success(if pathExists(baseDir, l.target.value) then [] else [l])
  {
    var p := (x: Parser.Link) => Broken(x, baseDir, pathExists);
    assert [l][1..] == [];
    assert Filter(p, []) == [];
    assert [l] + [] == [l];
  }

  /**
   * `get_broken_links(file)` as written: a `FileNotFoundError` unless the file
   * is a regular file; otherwise the extracted list of links is indexed with
   * the string `"file links"`, which raises a `TypeError` for every list.
   */
  function GetBrokenLinksAsWritten(isFile: bool, links: seq<Parser.Link>): Result<seq<Parser.Link>>
  {
    if !isFile then Failure(FileNotFoundError) else Failure(TypeError)
  }

  /**
   * `get_broken_links(file)` as evidently intended: the broken links among the
   * file's links, checked against the file's directory, are what it prints.
   */
  function GetBrokenLinks(isFile: bool, links: seq<Parser.Link>, baseDir: string, pathExists: (string, string) -> bool)
    : (r: Result<seq<Parser.Link>>)
    ensures !isFile <==> r == Failure(FileNotFoundError)
    ensures isFile ==> (r == Failure(TypeError) <==> exists k :: 0 <= k < |links| && links[k].target.None?)
    ensures isFile && (forall k :: 0 <= k < |links| ==> links[k].target.Some?) ==> r.Success?
    ensures r.Success? ==> IsSubsequence(r.value, links)
    ensures r.Success? ==> forall l :: l in r.value <==> l in links && l.target.Some? && !Resolves(l, baseDir, pathExists)
    ensures r.Success? ==> forall l :: l in links && l.target.Some? ==>
      multiset(r.value)[l] == if Resolves(l, baseDir, pathExists) then 0 else multiset(links)[l]
  {
    if !isFile then Failure(FileNotFoundError) else GetBrokenFileLinks(links, baseDir, pathExists)
  }

  /**
   * As written, a regular file never gets its broken links listed, even one
   * whose links all have targets, for which the intended function succeeds.
   */
  lemma BrokenLinksAsWrittenAlwaysFails(links: seq<Parser.Link>, baseDir: string, pathExists: (string, string) -> bool)
    requires forall k :: 0 <= k < |links| ==> links[k].target.Some?
    ensures GetBrokenLinksAsWritten(true, links) == Failure(TypeError)
    ensures GetBrokenLinks(true, links, baseDir, pathExists).Success?
  {
  }
}
