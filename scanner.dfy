/**
 * The human-readable file filter (src/scanner.py).
 *
 * The recursive directory listing is an input: the entries `rglob("*")`
 * yields, in its order, each with the parts of its full path (those of the
 * root first) and whether it is a regular file.
 */
module Scanner {
  import opened Wrappers
  import opened Sequences

  datatype Entry = Entry(parts: seq<string>, isFile: bool)

  /** `EXCLUDED_SUFFIXES`: compared exactly, so `.BIN` is not excluded. */
  const ExcludedSuffixes: seq<string> := [".bin"]

  /** `s.rfind(c)`: the index of the last `c` in `s`, or -1. */
  function LastIndexOf(s: string, c: char): (r: int)
    ensures -1 <= r < |s|
    ensures r >= 0 ==> s[r] == c
    ensures forall j :: r < j < |s| ==> s[j] != c
  {
    if s == [] then -1
    else if s[|s| - 1] == c then |s| - 1
    else LastIndexOf(s[..|s| - 1], c)
  }

  /** `Path.name`: the final part, or the empty string for a path without parts. */
  function Name(parts: seq<string>): string
  {
    if parts == [] then "" else parts[|parts| - 1]
  }

  /**
   * `PurePath.suffix` of a final part: from its last dot on, when that dot is
   * neither the first nor the last character; otherwise empty.
   */
  function Suffix(name: string): (r: string)
    ensures r == [] || (2 <= |r| < |name| && r == name[|name| - |r|..] && r[0] == '.')
    ensures forall j :: 1 <= j < |r| ==> r[j] != '.'
  {
    var i := LastIndexOf(name, '.');
    if 0 < i < |name| - 1 then name[i..] else ""
  }

  /** A part that starts with a dot (`part.startswith('.')`). */
  predicate Dotted(part: string)
  {
    |part| > 0 && part[0] == '.'
  }

  /** Some part of the path, the root's included, starts with a dot. */
  predicate Hidden(parts: seq<string>)
  {
    exists k :: 0 <= k < |parts| && Dotted(parts[k])
  }

  /** The three conditions of the comprehension: regular file, not hidden, suffix not excluded. */
  predicate HumanReadable(e: Entry)
  {
    e.isFile && !Hidden(e.parts) && Suffix(Name(e.parts)) !in ExcludedSuffixes
  }

  /** The comprehension over the listing: the human-readable entries, in listing order. */
  function FilterHumanReadable(walk: seq<Entry>): (r: seq<Entry>)
    ensures IsSubsequence(r, walk)
    ensures forall e :: e in r <==> e in walk && HumanReadable(e)
    ensures forall e :: e in walk ==> multiset(r)[e] == if HumanReadable(e) then multiset(walk)[e] else 0
  {
    FilterSubsequence(HumanReadable, walk);
    FilterMembers(HumanReadable, walk);
    FilterCounts(HumanReadable, walk);
    Filter(HumanReadable, walk)
  }

  /**
   * `get_human_readable_files(path)`, given what `path.rglob("*")` lists:
   * a `ValueError` unless `path` is a `str` or `Path`, else the filtered listing.
   */
  function GetHumanReadableFiles(path: PathArg, walk: seq<Entry>): (r: Result<seq<Entry>>)
    ensures path.NotPathLike? <==> r == Failure(ValueError)
    ensures path.PathLike? ==> r.Success?
    ensures r.Success? ==> IsSubsequence(r.value, walk)
    ensures r.Success? ==> forall e :: e in r.value ==> e.isFile && !Hidden(e.parts) && Suffix(Name(e.parts)) != ".bin"
    ensures r.Success? ==> forall e :: e in walk && HumanReadable(e) ==> e in r.value
    ensures r.Success? ==> forall e :: e in walk ==> multiset(r.value)[e] == if HumanReadable(e) then multiset(walk)[e] else 0
  {
    if path.NotPathLike? then Failure(ValueError) else Success(FilterHumanReadable(walk))
  }

  /** A root with a dotted part (such as `..`) hides every entry under it, so nothing is returned. */
  lemma {:induction false} DottedRootYieldsNothing(root: seq<string>, walk: seq<Entry>)
    requires Hidden(root)
    requires forall e :: e in walk ==> root <= e.parts
    ensures GetHumanReadableFiles(PathLike(root), walk) == Success([])
  {
    var k :| 0 <= k < |root| && Dotted(root[k]);
    forall e | e in walk
      ensures Hidden(e.parts)
    {
      assert e.parts[k] == root[k];
    }
    NothingReadable(walk);
  }

  /** A listing with no human-readable entry filters to nothing. */
  lemma NothingReadable(walk: seq<Entry>)
    requires forall e :: e in walk ==> !HumanReadable(e)
    ensures FilterHumanReadable(walk) == []
  {
  }

  /**
   * The suffix of `stem.ext`, for a non-empty stem and a non-empty extension
   * without dots, is `.ext`; the comparison with `.bin` is case-sensitive.
   */
  lemma SuffixOfExtension(stem: string, ext: string)
    requires stem != [] && ext != [] && forall j :: 0 <= j < |ext| ==> ext[j] != '.'
    ensures Suffix(stem + "." + ext) == "." + ext
    ensures Suffix(stem + "." + ext) in ExcludedSuffixes <==> ext == "bin"
  {
    var name := stem + "." + ext;
    var i := LastIndexOf(name, '.');
    assert name[|stem|] == '.';
    assert forall j :: |stem| < j < |name| ==> name[j] == ext[j - |stem| - 1];
    assert i == |stem|;
    assert name[i..] == "." + ext;
    if "." + ext == ".bin" {
      assert ext == ("." + ext)[1..] == ".bin"[1..] == "bin";
    }
  }

  /**
   * A name without a dot, or whose only dot stands first or whose last dot
   * stands last, has an empty suffix, and conversely.
   */
  lemma SuffixEmpty(name: string)
    ensures Suffix(name) == [] <==>
      (name != [] && name[|name| - 1] == '.') || (forall j :: 1 <= j < |name| ==> name[j] != '.')
  {
    var i := LastIndexOf(name, '.');
    if 0 < i < |name| - 1 {
      assert name[|name| - 1] != '.';
    }
  }
}
