/** Ingest pass 0: cutting markdown into segments at its headings, with page numbers from page markers. Where the
    regular expressions match is an input. */
module Segmenter {

  /** A page marker occupying [start, end); it sets the page of what follows. */
  datatype Marker = Marker(start: nat, end: nat, page: int)

  datatype Heading = Heading(pos: nat, level: nat, title: string)

  datatype Document = Document(chars: string, headings: seq<Heading>, markers: seq<Marker>,
                               isSpace: char -> bool, basePage: int)

  /** What the expressions guarantee: matches are in order and apart, a heading starts with a hash sign, which is not
      white space, and a marker contains none. */
  ghost predicate Valid(d: Document) {
    && !d.isSpace('#')
    && (forall m | m in d.markers :: m.start < m.end <= |d.chars|
                                   && forall p | m.start <= p < m.end :: d.chars[p] != '#')
    && (forall i, j | 0 <= i < j < |d.markers| :: d.markers[i].end <= d.markers[j].start)
    && (forall h | h in d.headings :: h.pos < |d.chars| && d.chars[h.pos] == '#' && 1 <= h.level <= 6)
    && (forall i, j | 0 <= i < j < |d.headings| :: d.headings[i].pos < d.headings[j].pos)
  }

  datatype Segment = Segment(number: nat, pageStart: int, pageEnd: int, headingPath: seq<string>,
                             startChar: nat, endChar: nat)

  /** The page set by the last of the first `n` markers that ends at or before `pos`; the base page if none does. */
  function PageOf(d: Document, n: nat, pos: nat): int
    requires n <= |d.markers|
  {
    if n == 0 then d.basePage
    else if d.markers[n - 1].end <= pos then d.markers[n - 1].page
    else PageOf(d, n - 1, pos)
  }

  function PageAt(d: Document, pos: nat): int {
    PageOf(d, |d.markers|, pos)
  }

  lemma {:induction false} LaterMarkersDoNotCount(d: Document, k: nat, n: nat, pos: nat)
    requires k <= n <= |d.markers| && forall i | k <= i < n :: d.markers[i].end > pos
    ensures PageOf(d, n, pos) == PageOf(d, k, pos)
  {
    if k < n {
      LaterMarkersDoNotCount(d, k, n - 1, pos);
    }
  }

  /** The scan over the page breaks stops at the first one past the position. */
  /** The page of a position is set by the last marker that ends at or before it. */
  lemma PageIsLastMarkers(d: Document, pos: nat)
    ensures (forall i | 0 <= i < |d.markers| :: d.markers[i].end > pos) ==> PageAt(d, pos) == d.basePage
    ensures forall i | 0 <= i < |d.markers| && d.markers[i].end <= pos
                       && (forall k | i < k < |d.markers| :: d.markers[k].end > pos) ::
              PageAt(d, pos) == d.markers[i].page
  {
    PageBefore(d, |d.markers|, pos);
  }

  lemma {:induction false} PageBefore(d: Document, n: nat, pos: nat)
    requires n <= |d.markers|
    ensures (forall i | 0 <= i < n :: d.markers[i].end > pos) ==> PageOf(d, n, pos) == d.basePage
    ensures forall i | 0 <= i < n && d.markers[i].end <= pos && (forall k | i < k < n :: d.markers[k].end > pos) ::
              PageOf(d, n, pos) == d.markers[i].page
  {
    if n > 0 && d.markers[n - 1].end > pos {
      PageBefore(d, n - 1, pos);
    }
  }

  method FindPage(d: Document, pos: nat) returns (page: int)
    requires Valid(d)
    ensures page == PageAt(d, pos)
  {
    page := d.basePage;
    for i := 0 to |d.markers|
      invariant page == PageOf(d, i, pos)
      invariant forall k | 0 <= k < i :: d.markers[k].end <= pos
    {
      if d.markers[i].end <= pos {
        page := d.markers[i].page;
      } else {
        forall k | i <= k < |d.markers| ensures d.markers[k].end > pos {
          assert d.markers[k] in d.markers;
        }
        LaterMarkersDoNotCount(d, i, |d.markers|, pos);
        break;
      }
    }
  }

  predicate InMarker(d: Document, pos: nat) {
    exists m | m in d.markers :: m.start <= pos < m.end
  }

  /** Neither white space nor part of a marker. */
  predicate IsContent(d: Document, pos: nat)
    requires pos < |d.chars|
  {
    !InMarker(d, pos) && !d.isSpace(d.chars[pos])
  }

  ghost predicate HasContent(d: Document, start: nat, end: nat)
    requires end <= |d.chars|
  {
    exists p :: start <= p < end && IsContent(d, p)
  }

  /** The last content position of a range, or its start if there is none. */
  ghost predicate IsLastContent(d: Document, start: nat, end: nat, pos: nat)
    requires end <= |d.chars|
  {
    if HasContent(d, start, end) then
      start <= pos < end && IsContent(d, pos) && forall p | pos < p < end :: !IsContent(d, p)
    else pos == start
  }

  method LastContentPos(d: Document, start: nat, end: nat) returns (pos: nat)
    requires end <= |d.chars|
    ensures IsLastContent(d, start, end, pos)
  {
    var p := end - 1;
    while p >= start
      invariant start - 1 <= p < end || start > end
      invariant forall q | p < q < end && q >= start :: !IsContent(d, q)
      decreases p - start
    {
      if IsContent(d, p) {
        return p;
      }
      p := p - 1;
    }
    pos := start;
  }

  /** Whether anything is left of a range once markers and outer white space are gone. */
  method CleanIsEmpty(d: Document, start: nat, end: nat) returns (empty: bool)
    requires end <= |d.chars|
    ensures empty <==> !HasContent(d, start, end)
  {
    var pos := LastContentPos(d, start, end);
    empty := !(start <= pos < end && IsContent(d, pos));
  }

  /** The titles a heading stands under, itself last: deeper titles go when a heading of their level or above comes. */
  function Path(d: Document, n: nat): seq<string>
    requires n <= |d.headings|
  {
    if n == 0 then []
    else
      var above, h := Path(d, n - 1), d.headings[n - 1];
      var keep := if h.level == 0 then 0 else h.level - 1;
      (if |above| <= keep then above else above[..keep]) + [h.title]
  }

  /** A heading path ends in the heading's own title, is no longer than the heading's level, and starts with what the
      path before it has above that level. */
  lemma PathOf(d: Document, i: nat)
    requires i < |d.headings| && d.headings[i].level >= 1
    ensures var path, before, level := Path(d, i + 1), Path(d, i), d.headings[i].level;
            && 1 <= |path| <= level && path[|path| - 1] == d.headings[i].title
            && |path| - 1 == (if |before| < level then |before| else level - 1)
            && path[..|path| - 1] == before[..|path| - 1]
  {
  }

  /** Under deeper headings a path only grows. */
  lemma {:induction false} DeeperKeeps(d: Document, i: nat, j: nat)
    requires i < j <= |d.headings| && d.headings[i].level >= 1
    requires forall k | i < k < j :: d.headings[k].level > d.headings[i].level
    ensures Path(d, i + 1) <= Path(d, j)
    decreases j
  {
    if j > i + 1 {
      DeeperKeeps(d, i, j - 1);
      PathOf(d, i);
      PathOf(d, j - 1);
    }
  }

  /** Of two headings of one level with only deeper ones between, the later title takes the earlier one's place if and
      only if no level above was skipped at the earlier one. */
  lemma SiblingsReplaceIff(d: Document, i: nat, j: nat)
    requires i < j < |d.headings| && 1 <= d.headings[i].level == d.headings[j].level
    requires forall k | i < k < j :: d.headings[k].level > d.headings[i].level
    ensures var path := Path(d, i + 1);
            Path(d, j + 1) == path[..|path| - 1] + [d.headings[j].title] <==> |path| == d.headings[i].level
  {
    var path, before, level := Path(d, i + 1), Path(d, j), d.headings[i].level;
    DeeperKeeps(d, i, j);
    PathOf(d, i);
    PathNext(d, j);
    if |path| == level {
      assert before[..level - 1] == path[..level - 1];
    } else {
      assert |Path(d, j + 1)| > |path|;
    }
  }

  lemma PathNext(d: Document, j: nat)
    requires j < |d.headings| && d.headings[j].level >= 1
    ensures var before, h := Path(d, j), d.headings[j];
            Path(d, j + 1) == (if |before| < h.level then before else before[..h.level - 1]) + [h.title]
  {
  }

  /** Two second-level headings and none above: the second one is listed under the first. */
  lemma SkippedLevelNests(d: Document, a: string, b: string)
    requires |d.headings| == 2 && d.headings[0].level == 2 && d.headings[1].level == 2
    requires d.headings[0].title == a && d.headings[1].title == b
    ensures Path(d, 1) == [a] && Path(d, 2) == [a, b]
  {
    assert Path(d, 1) == [a];
  }

  function SegmentEnd(d: Document, i: nat): nat
    requires i < |d.headings|
  {
    if i + 1 < |d.headings| then d.headings[i + 1].pos else |d.chars|
  }

  /** The segment of heading `i`. */
  ghost predicate IsSegment(d: Document, i: nat, s: Segment)
    requires Valid(d) && i < |d.headings|
  {
    && s.number == i + 1
    && s.startChar == d.headings[i].pos && s.endChar == SegmentEnd(d, i) <= |d.chars|
    && s.headingPath == Path(d, i + 1)
    && s.pageStart == PageAt(d, s.startChar)
    && exists p: nat :: IsLastContent(d, s.startChar, s.endChar, p) && s.pageEnd == PageAt(d, p)
  }

  /** A heading's own hash sign is content, so no segment is dropped for being empty. */
  lemma HeadingIsContent(d: Document, i: nat)
    requires Valid(d) && i < |d.headings|
    ensures d.headings[i].pos < SegmentEnd(d, i) <= |d.chars|
    ensures HasContent(d, d.headings[i].pos, SegmentEnd(d, i))
  {
    var h := d.headings[i];
    assert h in d.headings;
    if i + 1 < |d.headings| {
      assert d.headings[i + 1] in d.headings;
    }
    assert IsContent(d, h.pos);
  }

  method MarkdownToSegments(d: Document) returns (segments: seq<Segment>)
    requires Valid(d)
    ensures d.headings != [] ==>
              |segments| == |d.headings| && forall i | 0 <= i < |segments| :: IsSegment(d, i, segments[i])
    ensures d.headings == [] ==> if HasContent(d, 0, |d.chars|) then
                                   |segments| == 1 && IsWhole(d, segments[0]) else segments == []
  {
    segments := [];
    if d.headings == [] {
      var empty := CleanIsEmpty(d, 0, |d.chars|);
      if !empty {
        var first := FindPage(d, 0);
        var p := LastContentPos(d, 0, |d.chars|);
        var last := FindPage(d, p);
        segments := [Segment(1, first, last, [], 0, |d.chars|)];
      }
      return segments;
    }
    var stack: seq<string> := [];
    for i := 0 to |d.headings|
      invariant |segments| == i && stack == Path(d, i)
      invariant forall k | 0 <= k < i :: IsSegment(d, k, segments[k])
    {
      var h := d.headings[i];
      assert h in d.headings;
      stack := if |stack| <= h.level - 1 then stack else stack[..h.level - 1];
      stack := stack + [h.title];
      var end := if i + 1 < |d.headings| then d.headings[i + 1].pos else |d.chars|;
      HeadingIsContent(d, i);
      var empty := CleanIsEmpty(d, h.pos, end);
      if empty {
        continue;
      }
      var first := FindPage(d, h.pos);
      var p := LastContentPos(d, h.pos, end);
      var last := FindPage(d, p);
      segments := segments + [Segment(i + 1, first, last, stack, h.pos, end)];
    }
  }

  /** The one segment of a document without headings. */
  ghost predicate IsWhole(d: Document, s: Segment) {
    && s.number == 1 && s.startChar == 0 && s.endChar == |d.chars| && s.headingPath == []
    && s.pageStart == PageAt(d, 0)
    && exists p: nat :: IsLastContent(d, 0, |d.chars|, p) && s.pageEnd == PageAt(d, p)
  }

  // ---------------------------------------------------------------- properties

  /** Pages of the markers never fall, and none is before the base page. */
  ghost predicate PagesAscend(d: Document) {
    && (forall m | m in d.markers :: m.page >= d.basePage)
    && (forall i, j | 0 <= i < j < |d.markers| :: d.markers[i].page <= d.markers[j].page)
  }

  lemma {:induction false} PageOfBounded(d: Document, n: nat, pos: nat)
    requires n <= |d.markers| && PagesAscend(d)
    ensures PageOf(d, n, pos) >= d.basePage
    ensures forall i | n <= i < |d.markers| :: PageOf(d, n, pos) <= d.markers[i].page
  {
    if n > 0 {
      PageOfBounded(d, n - 1, pos);
      assert d.markers[n - 1] in d.markers;
    } else {
      forall i | 0 <= i < |d.markers| ensures d.basePage <= d.markers[i].page {
        assert d.markers[i] in d.markers;
      }
    }
  }

  lemma {:induction false} PageOfMonotone(d: Document, n: nat, p: nat, q: nat)
    requires n <= |d.markers| && PagesAscend(d) && p <= q
    ensures PageOf(d, n, p) <= PageOf(d, n, q)
  {
    if n > 0 {
      PageOfMonotone(d, n - 1, p, q);
      if d.markers[n - 1].end > p && d.markers[n - 1].end <= q {
        PageOfBounded(d, n - 1, p);
      }
    }
  }

  /** The segments tile the text from the first heading to its end, numbered 1, 2, 3, ...; with ascending page markers
      a segment starts no later than it ends and ends no later than the next one starts; and the end page is the page
      of its last character that is neither white space nor in a marker. */
  lemma SegmentsTile(d: Document, segments: seq<Segment>)
    requires Valid(d) && d.headings != [] && |segments| == |d.headings|
    requires forall i | 0 <= i < |segments| :: IsSegment(d, i, segments[i])
    ensures segments[0].startChar == d.headings[0].pos && segments[|segments| - 1].endChar == |d.chars|
    ensures forall i | 0 <= i < |segments| :: segments[i].number == i + 1 && segments[i].startChar < segments[i].endChar
    ensures forall i | 0 <= i < |segments| - 1 :: segments[i].endChar == segments[i + 1].startChar
    ensures forall i | 0 <= i < |segments| :: EndsOnLastContent(d, segments[i])
    ensures PagesAscend(d) ==>
              && (forall i | 0 <= i < |segments| :: segments[i].pageStart <= segments[i].pageEnd)
              && (forall i | 0 <= i < |segments| - 1 :: segments[i].pageEnd <= segments[i + 1].pageStart)
  {
    forall i | 0 <= i < |segments|
      ensures segments[i].startChar < segments[i].endChar && EndsOnLastContent(d, segments[i])
      ensures PagesAscend(d) ==> segments[i].pageStart <= segments[i].pageEnd <= PageAt(d, segments[i].endChar)
    {
      var s := segments[i];
      assert IsSegment(d, i, s);
      HeadingIsContent(d, i);
      var p: nat :| IsLastContent(d, s.startChar, s.endChar, p) && s.pageEnd == PageAt(d, p);
      if PagesAscend(d) {
        PageOfMonotone(d, |d.markers|, s.startChar, p);
        PageOfMonotone(d, |d.markers|, p, s.endChar);
      }
    }
    forall i | 0 <= i < |segments| - 1
      ensures segments[i].endChar == segments[i + 1].startChar
      ensures PagesAscend(d) ==> segments[i].pageEnd <= segments[i + 1].pageStart
    {
      assert IsSegment(d, i + 1, segments[i + 1]);
    }
  }

  ghost predicate EndsOnLastContent(d: Document, s: Segment) {
    exists p: nat :: s.startChar <= p < s.endChar <= |d.chars| && IsContent(d, p)
              && (forall q | p < q < s.endChar :: !IsContent(d, q)) && s.pageEnd == PageAt(d, p)
  }

  /** The last marker that ends at or before `pos`, if there is one, sets the base page. */
  ghost predicate BasePageAt(d: Document, pos: nat) {
    forall i | 0 <= i < |d.markers| && d.markers[i].end <= pos
               && (forall k | i < k < |d.markers| :: d.markers[k].end > pos) :: d.markers[i].page == d.basePage
  }

  lemma {:induction false} PageIsBaseIff(d: Document, n: nat, pos: nat)
    requires n <= |d.markers| && forall k | n <= k < |d.markers| :: d.markers[k].end > pos
    ensures PageOf(d, n, pos) == d.basePage <==> BasePageAt(d, pos)
  {
    if n > 0 && d.markers[n - 1].end > pos {
      PageIsBaseIff(d, n - 1, pos);
    }
  }

  /** Without headings the start page is always the base page. It is the page of the first content exactly when no
      marker ends before that content or the last one that does sets the base page. */
  lemma WholeStartsOnBasePage(d: Document, s: Segment, first: nat)
    requires Valid(d) && IsWhole(d, s) && first < |d.chars| && IsContent(d, first)
    requires forall p | 0 <= p < first :: !IsContent(d, p)
    ensures s.pageStart == d.basePage
    ensures s.pageStart == PageAt(d, first) <==> BasePageAt(d, first)
  {
    forall i | 0 <= i < |d.markers| ensures d.markers[i].end > 0 {
      assert d.markers[i] in d.markers;
    }
    LaterMarkersDoNotCount(d, 0, |d.markers|, 0);
    PageIsBaseIff(d, |d.markers|, first);
  }

  /** A marker for page 7 before the only text: the content is on page 7, the segment starts on page 1. */
  lemma MarkerBeforeText()
    ensures var d := Document("<!-- PAGE 7 -->a", [], [Marker(0, 15, 7)], c => c == ' ', 1);
            && Valid(d) && IsWhole(d, Segment(1, 1, 7, [], 0, 16))
            && IsContent(d, 15) && PageAt(d, 15) == 7
  {
    var d := Document("<!-- PAGE 7 -->a", [], [Marker(0, 15, 7)], c => c == ' ', 1);
    assert IsContent(d, 15);
    assert IsLastContent(d, 0, 16, 15);
  }
}
