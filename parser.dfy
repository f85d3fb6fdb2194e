/**
 * Link extraction from a Markdown token stream (src/parser.py).
 *
 * The tokenizer is an input: a document is the sequence of its top-level
 * blocks, each either an inline block with its children or any other block.
 * A child is a `link_open`, an `image`, a `text` token, or anything else.
 */
module Parser {
  import opened Wrappers

  datatype Child =
    | LinkOpen(href: Option<string>)
    | Image(src: Option<string>, alt: Option<string>)
    | Text(content: string)
    | Other

  datatype Block = Inline(children: seq<Child>) | NonInline

  /** One extracted `(link_text, link)` pair. An image without `src` yields a `None` target. */
  datatype Link = Link(text: string, target: Option<string>)

  const NoLinkText: string := "no link text"
  const NoAltText: string := "no alt text"

  /** The characters Python's `str.strip()` removes (those for which `str.isspace()` holds). */
  predicate IsSpace(c: char)
  {
    var n := c as int;
    (0x09 <= n <= 0x0D) || (0x1C <= n <= 0x20) || n == 0x85 || n == 0xA0 || n == 0x1680
    || (0x2000 <= n <= 0x200A) || n == 0x2028 || n == 0x2029 || n == 0x202F || n == 0x205F
    || n == 0x3000
  }

  predicate AllSpace(s: string)
  {
    forall i :: 0 <= i < |s| ==> IsSpace(s[i])
  }

  /** Where `s.lstrip()` starts cutting no more: the first index from `i` on that is not whitespace. */
  function SpaceEnd(s: string, i: nat): (n: nat)
    requires i <= |s|
    ensures i <= n <= |s|
    ensures forall k :: i <= k < n ==> IsSpace(s[k])
    ensures n == |s| || !IsSpace(s[n])
    decreases |s| - i
  {
    if i < |s| && IsSpace(s[i]) then SpaceEnd(s, i + 1) else i
  }

  /** Where `s.rstrip()` stops cutting, scanning back from `j` but not below `lo`. */
  function SpaceStart(s: string, lo: nat, j: nat): (n: nat)
    requires lo <= j <= |s|
    ensures lo <= n <= j
    ensures forall k :: n <= k < j ==> IsSpace(s[k])
    ensures n == lo || !IsSpace(s[n - 1])
    decreases j
  {
    if lo < j && IsSpace(s[j - 1]) then SpaceStart(s, lo, j - 1) else j
  }

  /** `s.strip()`: a contiguous piece of `s` with only whitespace cut on either side, and none left at its ends. */
  function Strip(s: string): (r: string)
    ensures exists a :: 0 <= a <= |s| - |r| && r == s[a..a + |r|] && AllSpace(s[..a]) && AllSpace(s[a + |r|..])
    ensures r == [] || (!IsSpace(r[0]) && !IsSpace(r[|r| - 1]))
  {
    var a := SpaceEnd(s, 0);
    var b := SpaceStart(s, a, |s|);
    StripCut(s, a, b);
    s[a..b]
  }

  /** Cutting at the two whitespace bounds leaves only whitespace outside and none at the ends. */
  lemma StripCut(s: string, a: nat, b: nat)
    requires a <= b <= |s|
    requires forall k :: 0 <= k < a ==> IsSpace(s[k])
    requires forall k :: b <= k < |s| ==> IsSpace(s[k])
    requires a == |s| || !IsSpace(s[a])
    requires b == a || !IsSpace(s[b - 1])
    ensures AllSpace(s[..a]) && AllSpace(s[b..])
    ensures var r := s[a..b]; r == [] || (!IsSpace(r[0]) && !IsSpace(r[|r| - 1]))
  {
    assert forall k :: 0 <= k < a ==> s[..a][k] == s[k];
    assert forall k :: 0 <= k < |s| - b ==> s[b..][k] == s[b + k];
  }

  /** The text of a link whose `link_open` is followed by `c`. */
  function LinkText(c: Child): string
  {
    if c.Text? then Strip(c.content) else NoLinkText
  }

  /** `alt or "no alt text"`: an absent or empty alt gives the sentinel. */
  function AltText(alt: Option<string>): string
  {
    if alt.Some? && alt.value != "" then alt.value else NoAltText
  }

  /** A `link_open` whose href is present and non-empty; it consumes the child after it. */
  predicate Consumes(c: Child)
  {
    c.LinkOpen? && c.href.Some? && c.href.value != ""
  }

  /** A child that yields a record when it is examined. */
  predicate Emits(c: Child)
  {
    Consumes(c) || c.Image?
  }

  /** The records of one inline run, following the shared iterator of the loop. */
  function ChildLinks(cs: seq<Child>): seq<Link>
    decreases |cs|
  {
    if cs == [] then []
    else if Consumes(cs[0]) then
      if |cs| == 1 then [Link(NoLinkText, cs[0].href)]
      else [Link(LinkText(cs[1]), cs[0].href)] + ChildLinks(cs[2..])
    else if cs[0].Image? then [Link(AltText(cs[0].alt), cs[0].src)] + ChildLinks(cs[1..])
    else ChildLinks(cs[1..])
  }

  function BlockLinks(b: Block): seq<Link>
  {
    match b
    case Inline(cs) => ChildLinks(cs)
    case NonInline => []
  }

  /** The records of a whole token stream, block after block. */
  function Extract(bs: seq<Block>): seq<Link>
  {
    if bs == [] then [] else Extract(bs[..|bs| - 1]) + BlockLinks(bs[|bs| - 1])
  }

  /**
   * `extract_links_from_text` after tokenizing: walks the blocks, and in each
   * inline block walks the children with one iterator that a `link_open` with
   * a non-empty href advances once more to read its text.
   */
  method ExtractLinksFromText(blocks: seq<Block>) returns (links: seq<Link>)
    ensures links == Extract(blocks)
  {
    links := [];
    var b := 0;
    while b < |blocks|
      invariant 0 <= b <= |blocks|
      invariant links == Extract(blocks[..b])
    {
      assert blocks[..b + 1][..b] == blocks[..b];
      var token := blocks[b];
      b := b + 1;
      if token.NonInline? {
        continue;
      }
      var cs := token.children;
      ghost var goal := links + ChildLinks(cs);
      assert goal == Extract(blocks[..b]);
      var i := 0;
      while i < |cs|
        invariant 0 <= i <= |cs|
        invariant links + ChildLinks(cs[i..]) == goal
      {
        ChildLinksAt(cs, i);
        ghost var done := links;
        ghost var rest := ChildLinks(cs[i..]);
        var child := cs[i];
        i := i + 1;
        if child.LinkOpen? {
          var link := child.href;
          if link.None? || link.value == "" {
            continue;
          }
          var text;
          if i < |cs| {
            var textToken := cs[i];
            i := i + 1;
            text := if textToken.Text? then Strip(textToken.content) else NoLinkText;
          } else {
            text := NoLinkText;
          }
          assert rest == [Link(text, link)] + ChildLinks(cs[i..]);
          links := links + [Link(text, link)];
          assert links + ChildLinks(cs[i..]) == done + rest;
        } else if child.Image? {
          var src := child.src;
          var alt := if child.alt.Some? && child.alt.value != "" then child.alt.value else NoAltText;
          links := links + [Link(alt, src)];
          assert links + ChildLinks(cs[i..]) == done + rest;
        }
      }
      assert cs[|cs|..] == [];
    }
    assert blocks[..|blocks|] == blocks;
  }

  /** One step of the walk, read off at child `i`. */
  lemma ChildLinksAt(cs: seq<Child>, i: nat)
    requires i < |cs|
    ensures Consumes(cs[i]) && i + 1 < |cs| ==>
      ChildLinks(cs[i..]) == [Link(LinkText(cs[i + 1]), cs[i].href)] + ChildLinks(cs[i + 2..])
    ensures Consumes(cs[i]) && i + 1 == |cs| ==> ChildLinks(cs[i..]) == [Link(NoLinkText, cs[i].href)]
    ensures cs[i].Image? ==> ChildLinks(cs[i..]) == [Link(AltText(cs[i].alt), cs[i].src)] + ChildLinks(cs[i + 1..])
    ensures !Emits(cs[i]) ==> ChildLinks(cs[i..]) == ChildLinks(cs[i + 1..])
  {
    assert cs[i..][0] == cs[i];
    assert cs[i..][1..] == cs[i + 1..];
    if i + 1 < |cs| {
      assert cs[i..][1] == cs[i + 1];
      assert cs[i..][2..] == cs[i + 2..];
    }
  }

  // ---------------------------------------------------------------------------
  // An index-based reference for the walk: which children are examined at all,
  // and which record each examined child yields.

  /** Child `i` is skipped iff the child before it was examined and consumed it. */
  predicate Skipped(cs: seq<Child>, i: nat)
    requires i < |cs|
  {
    i > 0 && !Skipped(cs, i - 1) && Consumes(cs[i - 1])
  }

  /** The record an examined, emitting child `i` yields. */
  function RecordOf(cs: seq<Child>, i: nat): (r: Link)
    requires i < |cs| && Emits(cs[i])
  {
    if cs[i].Image? then Link(AltText(cs[i].alt), cs[i].src)
    else Link(if i + 1 < |cs| then LinkText(cs[i + 1]) else NoLinkText, cs[i].href)
  }

  /** What child `i` contributes: its record if it is examined and emits one, else nothing. */
  function Emitted(cs: seq<Child>, i: nat): seq<Link>
    requires i < |cs|
  {
    if !Skipped(cs, i) && Emits(cs[i]) then [RecordOf(cs, i)] else []
  }

  /** The records of the examined, emitting children from child `i` on, in child order. */
  function ScanFrom(cs: seq<Child>, i: nat): seq<Link>
    requires i <= |cs|
    decreases |cs| - i
  {
    if i == |cs| then [] else Emitted(cs, i) + ScanFrom(cs, i + 1)
  }

  /** From any examined child `i` on, the walk yields the reference records. */
  lemma {:induction false} ChildLinksFrom(cs: seq<Child>, i: nat)
    requires i <= |cs| && (i < |cs| ==> !Skipped(cs, i))
    ensures ChildLinks(cs[i..]) == ScanFrom(cs, i)
    decreases |cs| - i
  {
    if i == |cs| {
      assert cs[i..] == [];
    } else {
      ChildLinksAt(cs, i);
      if Consumes(cs[i]) && i + 1 < |cs| {
        assert Skipped(cs, i + 1);
        assert i + 2 < |cs| ==> !Skipped(cs, i + 2);
        ChildLinksFrom(cs, i + 2);
        assert ScanFrom(cs, i + 1) == ScanFrom(cs, i + 2);
      } else if Consumes(cs[i]) {
        assert ScanFrom(cs, i) == [RecordOf(cs, i)] + [];
      } else {
        assert i + 1 < |cs| ==> !Skipped(cs, i + 1);
        ChildLinksFrom(cs, i + 1);
      }
    }
  }

  /**
   * The walk is the reference: a record for every examined `link_open` with a
   * non-empty href or `image`, in child order; a child right after a consuming
   * `link_open` is never examined.
   */
  lemma ChildLinksIsScan(cs: seq<Child>)
    ensures ChildLinks(cs) == ScanFrom(cs, 0)
  {
    ChildLinksFrom(cs, 0);
    assert cs[0..] == cs;
  }

  /** Every record comes from an examined `link_open`/`image` child, with its href/src verbatim. */
  lemma RecordsFromChildren(cs: seq<Child>, k: nat)
    requires k < |ChildLinks(cs)|
    ensures exists i :: 0 <= i < |cs| && !Skipped(cs, i) && Emits(cs[i]) && ChildLinks(cs)[k] == RecordOf(cs, i)
  {
    ChildLinksIsScan(cs);
    ScanOrigin(cs, 0, k);
  }

  lemma {:induction false} ScanOrigin(cs: seq<Child>, from: nat, k: nat)
    requires from <= |cs| && k < |ScanFrom(cs, from)|
    ensures exists i :: from <= i < |cs| && !Skipped(cs, i) && Emits(cs[i]) && ScanFrom(cs, from)[k] == RecordOf(cs, i)
    decreases |cs| - from
  {
    var e := Emitted(cs, from);
    if k < |e| {
      assert ScanFrom(cs, from)[k] == RecordOf(cs, from);
    } else {
      ScanOrigin(cs, from + 1, k - |e|);
      assert ScanFrom(cs, from)[k] == ScanFrom(cs, from + 1)[k - |e|];
    }
  }

  /** Number of `link_open` and `image` children. */
  function LinkishCount(cs: seq<Child>): nat
  {
    if cs == [] then 0 else (if cs[0].LinkOpen? || cs[0].Image? then 1 else 0) + LinkishCount(cs[1..])
  }

  /** There are at most as many records as `link_open` plus `image` children. */
  lemma {:induction false} ChildLinksBound(cs: seq<Child>)
    ensures |ChildLinks(cs)| <= LinkishCount(cs)
    decreases |cs|
  {
    if cs != [] {
      if Consumes(cs[0]) && |cs| >= 2 {
        ChildLinksBound(cs[2..]);
        assert cs[1..][1..] == cs[2..];
        assert LinkishCount(cs[1..]) >= LinkishCount(cs[2..]);
      } else if !(Consumes(cs[0]) && |cs| == 1) {
        ChildLinksBound(cs[1..]);
      }
    }
  }

  /** Blocks contribute their records one after the other. */
  lemma {:induction false} ExtractAppend(a: seq<Block>, b: seq<Block>)
    ensures Extract(a + b) == Extract(a) + Extract(b)
    decreases |b|
  {
    if b == [] {
      assert a + b == a;
    } else {
      var b', last := b[..|b| - 1], b[|b| - 1];
      assert (a + b)[..|a + b| - 1] == a + b';
      assert (a + b)[|a + b| - 1] == last;
      ExtractAppend(a, b');
      var x, y, z := Extract(a), Extract(b'), BlockLinks(last);
      assert Extract(a + b) == (x + y) + z;
      assert Extract(b) == y + z;
      assert (x + y) + z == x + (y + z);
    }
  }

  /** A block that is not inline contributes no records, wherever it stands. */
  lemma NonInlineIgnored(a: seq<Block>, b: seq<Block>)
    ensures Extract(a + [NonInline] + b) == Extract(a + b)
  {
    ExtractAppend(a + [NonInline], b);
    ExtractAppend(a, b);
    assert (a + [NonInline])[..|a|] == a;
  }

  /** Children other than `link_open` and `image` that nothing consumes yield no records. */
  lemma PlainChildIgnored(c: Child, cs: seq<Child>)
    requires !c.LinkOpen? && !c.Image?
    ensures ChildLinks([c] + cs) == ChildLinks(cs)
  {
    assert ([c] + cs)[1..] == cs;
  }

  /** A `link_open` with an absent or empty href yields nothing and the child after it is still examined. */
  lemma EmptyHrefYieldsNothing(href: Option<string>, cs: seq<Child>)
    requires href.None? || href.value == ""
    ensures ChildLinks([LinkOpen(href)] + cs) == ChildLinks(cs)
  {
    assert ([LinkOpen(href)] + cs)[1..] == cs;
  }

  /** A `link_open` with a non-empty href takes the child after it, whatever it is, as its text source. */
  lemma LinkConsumesNext(href: string, next: Child, cs: seq<Child>)
    requires href != ""
    ensures ChildLinks([LinkOpen(Some(href)), next] + cs)
         == [Link(if next.Text? then Strip(next.content) else NoLinkText, Some(href))] + ChildLinks(cs)
  {
    assert ([LinkOpen(Some(href)), next] + cs)[2..] == cs;
  }

  /** A `link_open` with a non-empty href at the end of its run gets the sentinel text. */
  lemma LinkAtEnd(href: string)
    requires href != ""
    ensures ChildLinks([LinkOpen(Some(href))]) == [Link(NoLinkText, Some(href))]
  {
  }

  /** Every `image` yields one record `(alt or "no alt text", src)`, even without a `src`. */
  lemma ImageYieldsRecord(src: Option<string>, alt: Option<string>, cs: seq<Child>)
    ensures ChildLinks([Image(src, alt)] + cs) == [Link(AltText(alt), src)] + ChildLinks(cs)
    ensures AltText(alt) != "" && (AltText(alt) != NoAltText ==> alt == Some(AltText(alt)))
  {
    assert ([Image(src, alt)] + cs)[1..] == cs;
  }

  /**
   * A linked image (`[![alt](pic)](page)`) yields only the link's record, with
   * the sentinel text: the `link_open` consumes the image as its text token,
   * so the image itself is never examined and its `src` is not recorded.
   */
  lemma LinkedImageSwallowed(href: string, src: Option<string>, alt: Option<string>, cs: seq<Child>)
    requires href != ""
    ensures ChildLinks([LinkOpen(Some(href)), Image(src, alt)] + cs) == [Link(NoLinkText, Some(href))] + ChildLinks(cs)
  {
    assert ([LinkOpen(Some(href)), Image(src, alt)] + cs)[2..] == cs;
  }

  /** A text with no whitespace at either end is its own strip. */
  lemma StripUntrimmed(s: string)
    requires s != [] && !IsSpace(s[0]) && !IsSpace(s[|s| - 1])
    ensures Strip(s) == s
  {
  }
}
