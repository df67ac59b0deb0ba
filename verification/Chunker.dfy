/** The indexer's `chunk_text`: greedy packing of paragraphs into chunks of bounded length,
    with overlapping windows over any paragraph that is too long on its own.

    Paragraphs are the pieces left after the text was split on blank lines and stripped. */
module Chunker {

  /** The separator put back between two paragraphs of one chunk. */
  const SEP: string := "\n\n"

  /** The paragraphs joined by the separator: the text the chunks are cut from. */
  function Join(ps: seq<string>): string {
    if |ps| == 0 then ""
    else if |ps| == 1 then ps[0]
    else Join(ps[..|ps| - 1]) + SEP + ps[|ps| - 1]
  }

  /** Finished chunks and the chunk being filled. */
  datatype Packing = Packing(chunks: seq<string>, current: string)

  function Windows(s: Packing, maxChars: nat, overlap: nat): Packing
    requires overlap < maxChars
    decreases |s.current|
  {
    if |s.current| <= maxChars then s
    else Windows(Packing(s.chunks + [s.current[..maxChars]], s.current[maxChars - overlap..]), maxChars, overlap)
  }

  function Add(s: Packing, p: string, maxChars: nat, overlap: nat): Packing
    requires overlap < maxChars
  {
    var candidate := if s.current == "" then p else s.current + SEP + p;
    if |candidate| <= maxChars then s.(current := candidate)
    else Windows(Packing(Flush(s), p), maxChars, overlap)
  }

  function Flush(s: Packing): seq<string> {
    if s.current == "" then s.chunks else s.chunks + [s.current]
  }

  function Pack(ps: seq<string>, maxChars: nat, overlap: nat): Packing
    requires overlap < maxChars
  {
    if ps == [] then Packing([], "")
    else Add(Pack(ps[..|ps| - 1], maxChars, overlap), ps[|ps| - 1], maxChars, overlap)
  }

  /** The chunks of a paragraph list. */
  function Chunks(ps: seq<string>, maxChars: nat, overlap: nat): seq<string>
    requires overlap < maxChars
  {
    Flush(Pack(ps, maxChars, overlap))
  }

  method ChunkText(paragraphs: seq<string>, maxChars: nat := 900, overlap: nat := 150) returns (chunks: seq<string>)
    requires overlap < maxChars
    ensures chunks == Chunks(paragraphs, maxChars, overlap)
    ensures NonEmpty(paragraphs) ==> exists offs :: IsCut(paragraphs, chunks, offs, maxChars, overlap)
  {
    chunks := [];
    var current := "";
    var i := 0;
    while i < |paragraphs|
      invariant 0 <= i <= |paragraphs|
      invariant Pack(paragraphs[..i], maxChars, overlap) == Packing(chunks, current)
    {
      var paragraph := paragraphs[i];
      ghost var before := Packing(chunks, current);
      assert paragraphs[..i + 1][..i] == paragraphs[..i];
      i := i + 1;
      var candidate := if current == "" then paragraph else current + SEP + paragraph;
      if |candidate| <= maxChars {
        current := candidate;
        continue;
      }
      if current != "" {
        chunks := chunks + [current];
      }
      current := paragraph;
      while |current| > maxChars
        invariant Windows(Packing(chunks, current), maxChars, overlap) == Add(before, paragraph, maxChars, overlap)
        decreases |current|
      {
        chunks := chunks + [current[..maxChars]];
        current := current[maxChars - overlap..];
      }
    }
    assert paragraphs[..i] == paragraphs;
    if current != "" {
      chunks := chunks + [current];
    }
    if NonEmpty(paragraphs) {
      ghost var offs := ChunksCover(paragraphs, maxChars, overlap);
    }
  }

  // ------------------------------------------------------------- termination

  /** The length of what the window loop keeps of a text of length `n`, for any overlap: a negative slice index counts
      from the end. */
  ghost function KeptLength(n: nat, maxChars: nat, overlap: nat): nat
    requires n > maxChars
  {
    if overlap <= maxChars then n - (maxChars - overlap)
    else if n <= overlap - maxChars then n
    else overlap - maxChars
  }

  ghost function LengthAfter(rounds: nat, n: nat, maxChars: nat, overlap: nat): nat {
    if rounds == 0 || n <= maxChars then n
    else LengthAfter(rounds - 1, KeptLength(n, maxChars, overlap), maxChars, overlap)
  }

  lemma {:induction false} WindowsShrink(n: nat, maxChars: nat, overlap: nat) returns (rounds: nat)
    requires overlap < maxChars
    ensures LengthAfter(rounds, n, maxChars, overlap) <= maxChars
    decreases n
  {
    if n <= maxChars {
      return 0;
    }
    rounds := WindowsShrink(KeptLength(n, maxChars, overlap), maxChars, overlap);
    rounds := rounds + 1;
  }

  lemma {:induction false} WindowsStay(rounds: nat, n: nat, maxChars: nat, overlap: nat)
    requires n > maxChars && (overlap == maxChars || overlap > 2 * maxChars)
    ensures LengthAfter(rounds, n, maxChars, overlap) > maxChars
    decreases rounds
  {
    if rounds > 0 {
      WindowsStay(rounds - 1, KeptLength(n, maxChars, overlap), maxChars, overlap);
    }
  }

  /** The window loop over a paragraph that is too long ends if and only if the overlap is less than the chunk size, or
      more but at most twice as much. */
  lemma LoopEndsIff(n: nat, maxChars: nat, overlap: nat)
    requires n > maxChars
    ensures (exists rounds: nat :: LengthAfter(rounds, n, maxChars, overlap) <= maxChars)
            <==> overlap < maxChars || maxChars < overlap <= 2 * maxChars
  {
    if overlap < maxChars {
      var rounds := WindowsShrink(n, maxChars, overlap);
    } else if maxChars < overlap <= 2 * maxChars {
      assert LengthAfter(1, n, maxChars, overlap) <= maxChars;
    } else {
      forall rounds: nat ensures LengthAfter(rounds, n, maxChars, overlap) > maxChars {
        WindowsStay(rounds, n, maxChars, overlap);
      }
    }
  }

  // ---------------------------------------------------------------- coverage

  ghost predicate NonEmpty(ps: seq<string>) {
    forall k | 0 <= k < |ps| :: ps[k] != ""
  }

  /** Where paragraph `k` starts in the joined text. */
  ghost function ParagraphStart(ps: seq<string>, k: nat): nat
    requires k <= |ps|
  {
    if k == 0 then 0 else |Join(ps[..k])| + |SEP|
  }

  /** `pieces`, placed at the offsets `offs`, cover the joined text of `ps`: each is the substring at its
      offset, offsets strictly increase, the first starts at 0 and the last ends with the text, and two
      consecutive pieces either share exactly `overlap` characters or are parted by exactly the
      separator in front of some paragraph. */
  ghost predicate Covers(ps: seq<string>, pieces: seq<string>, offs: seq<nat>, overlap: nat) {
    var text := Join(ps);
    && |offs| == |pieces|
    && (pieces == [] <==> text == "")
    && (forall i | 0 <= i < |pieces| :: pieces[i] != "" && PlacedAt(text, pieces[i], offs[i]))
    && (forall i | 0 <= i < |pieces| - 1 :: Follows(ps, pieces, offs, overlap, i))
    && (pieces != [] ==> offs[0] == 0 && offs[|offs| - 1] + |pieces[|pieces| - 1]| == |text|)
  }

  ghost predicate PlacedAt(text: string, piece: string, off: nat) {
    off + |piece| <= |text| && forall j | 0 <= j < |piece| :: piece[j] == text[off + j]
  }

  ghost predicate Follows(ps: seq<string>, pieces: seq<string>, offs: seq<nat>, overlap: nat, i: nat)
    requires |offs| == |pieces| && i + 1 < |pieces|
  {
    var end := offs[i] + |pieces[i]|;
    && offs[i] < offs[i + 1]
    && (offs[i + 1] + overlap == end || (end + |SEP| == offs[i + 1] && StartsParagraph(ps, offs[i + 1])))
  }

  ghost predicate StartsParagraph(ps: seq<string>, off: nat) {
    exists k | 0 < k < |ps| :: off == ParagraphStart(ps, k)
  }

  ghost predicate InParagraph(ps: seq<string>, from: nat, to: nat) {
    exists k | 0 <= k < |ps| :: ParagraphStart(ps, k) <= from && to < ParagraphStart(ps, k) + |ps[k]|
  }

  /** Why piece `i` ends where it does. Before an overlap it is as long as a chunk can be and lies inside one paragraph,
      which goes on after it; before a separator it has no room for the paragraph that follows. */
  ghost predicate EndsRightly(ps: seq<string>, pieces: seq<string>, offs: seq<nat>, maxChars: nat, overlap: nat, i: nat)
    requires |offs| == |pieces| && i + 1 < |pieces|
  {
    var end := offs[i] + |pieces[i]|;
    if offs[i + 1] + overlap == end then |pieces[i]| == maxChars && InParagraph(ps, offs[i], end)
    else forall k | 0 < k < |ps| && offs[i + 1] == ParagraphStart(ps, k) :: |pieces[i]| + |SEP| + |ps[k]| > maxChars
  }

  ghost predicate EndRightly(ps: seq<string>, pieces: seq<string>, offs: seq<nat>, maxChars: nat, overlap: nat) {
    |offs| == |pieces| && forall i | 0 <= i < |pieces| - 1 :: EndsRightly(ps, pieces, offs, maxChars, overlap, i)
  }

  /** A cover by pieces that fit, each of which ends where it must. */
  ghost predicate IsCut(ps: seq<string>, pieces: seq<string>, offs: seq<nat>, maxChars: nat, overlap: nat) {
    && Covers(ps, pieces, offs, overlap)
    && EndRightly(ps, pieces, offs, maxChars, overlap)
    && (forall i | 0 <= i < |pieces| :: |pieces[i]| <= maxChars)
  }

  /** Every finished chunk fits; the pieces are the finished chunks and the one being filled. */
  ghost predicate Packed(ps: seq<string>, s: Packing, offs: seq<nat>, maxChars: nat, overlap: nat) {
    && (forall i | 0 <= i < |s.chunks| :: |s.chunks[i]| <= maxChars)
    && (s.current == "" ==> s.chunks == [])
    && Covers(ps, Flush(s), offs, overlap)
    && EndRightly(ps, Flush(s), offs, maxChars, overlap)
  }

  /** The last piece starts in the last paragraph. */
  ghost predicate LastInLast(ps: seq<string>, offs: seq<nat>) {
    ps != [] && offs != [] && ParagraphStart(ps, |ps| - 1) <= offs[|offs| - 1]
  }

  lemma {:induction false} JoinNonEmpty(ps: seq<string>)
    requires NonEmpty(ps) && ps != []
    ensures Join(ps) != ""
  {
    if |ps| > 1 {
      assert Join(ps)[|Join(ps)| - 1..] != "";
    }
  }

  lemma JoinSnoc(ps: seq<string>, p: string)
    ensures Join(ps + [p]) == if ps == [] then p else Join(ps) + SEP + p
  {
    assert (ps + [p])[..|ps|] == ps;
  }

  /** Replacing the last piece by a window of it and the rest keeps the cover. */
  lemma CutLast(ps: seq<string>, front: seq<string>, last: string, offs: seq<nat>, maxChars: nat, overlap: nat)
      returns (offs': seq<nat>)
    requires overlap < maxChars < |last| && Covers(ps, front + [last], offs, overlap)
    ensures Covers(ps, front + [last[..maxChars]] + [last[maxChars - overlap..]], offs', overlap)
    ensures offs' == offs + [offs[|front|] + maxChars - overlap]
  {
    var n, o := |front|, offs[|front|];
    var head, tail := last[..maxChars], last[maxChars - overlap..];
    var all, all' := front + [last], front + [head] + [tail];
    offs' := offs + [o + maxChars - overlap];
    assert all[n] == last && all'[n] == head && all'[n + 1] == tail;
    assert forall i | 0 <= i < n :: all'[i] == all[i];
    assert forall i | 0 <= i < n - 1 :: Follows(ps, all, offs, overlap, i) ==> Follows(ps, all', offs', overlap, i);
    if n > 0 {
      assert Follows(ps, all, offs, overlap, n - 1);
      assert Follows(ps, all', offs', overlap, n - 1);
    }
    assert Follows(ps, all', offs', overlap, n);
    assert PlacedAt(Join(ps), last, o);
    assert PlacedAt(Join(ps), head, o) && PlacedAt(Join(ps), tail, o + maxChars - overlap);
  }

  lemma TextEnd(ps: seq<string>)
    requires ps != []
    ensures |Join(ps)| == ParagraphStart(ps, |ps| - 1) + |ps[|ps| - 1]|
  {
  }

  /** A window of a paragraph that goes on ends where it must. */
  lemma CutLastRightly(ps: seq<string>, front: seq<string>, last: string, offs: seq<nat>, maxChars: nat, overlap: nat)
    requires overlap < maxChars < |last| && Covers(ps, front + [last], offs, overlap) && LastInLast(ps, offs)
    requires EndRightly(ps, front + [last], offs, maxChars, overlap)
    ensures var offs' := offs + [offs[|front|] + maxChars - overlap];
            && EndRightly(ps, front + [last[..maxChars]] + [last[maxChars - overlap..]], offs', maxChars, overlap)
            && LastInLast(ps, offs')
  {
    var n, o := |front|, offs[|front|];
    var all, all' := front + [last], front + [last[..maxChars]] + [last[maxChars - overlap..]];
    var offs' := offs + [o + maxChars - overlap];
    assert all[n] == last && all'[n] == last[..maxChars];
    TextEnd(ps);
    forall i | 0 <= i < n ensures EndsRightly(ps, all', offs', maxChars, overlap, i) {
      assert all'[i] == all[i] && EndsRightly(ps, all, offs, maxChars, overlap, i);
    }
    assert InParagraph(ps, o, o + maxChars);
    assert EndsRightly(ps, all', offs', maxChars, overlap, n);
  }

  /** Cutting all windows off the last piece keeps the cover and leaves pieces that fit. */
  lemma {:induction false} WindowsCover(ps: seq<string>, s: Packing, offs: seq<nat>, maxChars: nat, overlap: nat)
      returns (offs': seq<nat>)
    requires overlap < maxChars
    requires s.current != "" && Packed(ps, s, offs, maxChars, overlap) && LastInLast(ps, offs)
    ensures var r := Windows(s, maxChars, overlap);
            r.current != "" && |r.current| <= maxChars && Packed(ps, r, offs', maxChars, overlap)
    decreases |s.current|
  {
    if |s.current| <= maxChars {
      return offs;
    }
    offs' := CutLast(ps, s.chunks, s.current, offs, maxChars, overlap);
    CutLastRightly(ps, s.chunks, s.current, offs, maxChars, overlap);
    var s' := Packing(s.chunks + [s.current[..maxChars]], s.current[maxChars - overlap..]);
    offs' := WindowsCover(ps, s', offs', maxChars, overlap);
  }

  /** A further paragraph moves no piece and keeps every paragraph start. */
  lemma GrowText(init: seq<string>, p: string, pieces: seq<string>, offs: seq<nat>, overlap: nat)
    requires init != [] && Covers(init, pieces, offs, overlap)
    ensures forall i | 0 <= i < |pieces| :: PlacedAt(Join(init + [p]), pieces[i], offs[i])
    ensures forall i | 0 <= i < |pieces| - 1 :: Follows(init + [p], pieces, offs, overlap, i)
  {
    var ps := init + [p];
    JoinSnoc(init, p);
    forall i | 0 <= i < |pieces| ensures PlacedAt(Join(ps), pieces[i], offs[i]) {
      var o := offs[i];
      assert PlacedAt(Join(init), pieces[i], o);
      assert Join(ps)[..|Join(init)|] == Join(init);
      assert Join(ps)[o..o + |pieces[i]|] == Join(init)[o..o + |pieces[i]|];
    }
    forall i | 0 <= i < |pieces| - 1 ensures Follows(ps, pieces, offs, overlap, i) {
      assert Follows(init, pieces, offs, overlap, i);
      if StartsParagraph(init, offs[i + 1]) {
        var k :| 0 < k < |init| && offs[i + 1] == ParagraphStart(init, k);
        assert ps[..k] == init[..k];
        assert offs[i + 1] == ParagraphStart(ps, k);
      }
    }
  }

  /** And it changes no reason for a piece to end. */
  lemma GrowRightly(init: seq<string>, p: string, pieces: seq<string>, offs: seq<nat>, maxChars: nat, overlap: nat)
    requires init != [] && Covers(init, pieces, offs, overlap) && EndRightly(init, pieces, offs, maxChars, overlap)
    ensures EndRightly(init + [p], pieces, offs, maxChars, overlap)
  {
    var ps := init + [p];
    forall k | 0 <= k <= |init|
      ensures ParagraphStart(ps, k) == if k < |init| then ParagraphStart(init, k) else |Join(init)| + |SEP|
    {
      assert ps[..k] == init[..k] && init[..|init|] == init;
    }
    forall i | 0 <= i < |pieces| - 1 ensures EndsRightly(ps, pieces, offs, maxChars, overlap, i) {
      assert EndsRightly(init, pieces, offs, maxChars, overlap, i) && PlacedAt(Join(init), pieces[i + 1], offs[i + 1]);
      var end := offs[i] + |pieces[i]|;
      if offs[i + 1] + overlap == end {
        var k :| 0 <= k < |init| && ParagraphStart(init, k) <= offs[i] && end < ParagraphStart(init, k) + |init[k]|;
        assert ParagraphStart(ps, k) <= offs[i] && end < ParagraphStart(ps, k) + |ps[k]|;
      }
    }
  }

  /** Making the last piece longer changes none either. */
  lemma LastDoesNotMatter(ps: seq<string>, front: seq<string>, last: string, last': string, offs: seq<nat>,
                          maxChars: nat, overlap: nat)
    requires EndRightly(ps, front + [last], offs, maxChars, overlap)
    ensures EndRightly(ps, front + [last'], offs, maxChars, overlap)
  {
    var all, all' := front + [last], front + [last'];
    forall i | 0 <= i < |front| ensures EndsRightly(ps, all', offs, maxChars, overlap, i) {
      assert all'[i] == all[i] && EndsRightly(ps, all, offs, maxChars, overlap, i);
    }
  }

  /** The next paragraph joins the last piece. */
  lemma ExtendLast(init: seq<string>, p: string, front: seq<string>, last: string, offs: seq<nat>, overlap: nat)
    requires init != [] && Covers(init, front + [last], offs, overlap)
    ensures Covers(init + [p], front + [last + SEP + p], offs, overlap)
  {
    var ps, n, o := init + [p], |front|, offs[|front|];
    var all, all' := front + [last], front + [last + SEP + p];
    GrowText(init, p, all, offs, overlap);
    JoinSnoc(init, p);
    assert all[n] == last;
    assert forall i | 0 <= i < n :: all'[i] == all[i];
    assert forall i | 0 <= i < n :: Follows(ps, all, offs, overlap, i) ==> Follows(ps, all', offs, overlap, i);
    assert PlacedAt(Join(ps), last, o);
    assert PlacedAt(Join(ps), last + SEP + p, o);
  }

  /** The next paragraph starts a piece of its own. */
  lemma AppendPiece(init: seq<string>, p: string, all: seq<string>, offs: seq<nat>, overlap: nat)
      returns (offs': seq<nat>)
    requires init != [] && p != "" && all != [] && Covers(init, all, offs, overlap)
    ensures Covers(init + [p], all + [p], offs', overlap)
    ensures offs' == offs + [|Join(init)| + |SEP|]
  {
    var ps, n, off := init + [p], |all|, |Join(init)| + |SEP|;
    var all' := all + [p];
    offs' := offs + [off];
    GrowText(init, p, all, offs, overlap);
    JoinSnoc(init, p);
    assert forall i | 0 <= i < n :: all'[i] == all[i];
    assert forall i | 0 <= i < n - 1 :: Follows(ps, all, offs, overlap, i) ==> Follows(ps, all', offs', overlap, i);
    assert ps[..|init|] == init;
    assert ParagraphStart(ps, |init|) == off;
    assert StartsParagraph(ps, off);
    assert Follows(ps, all', offs', overlap, n - 1);
    assert PlacedAt(Join(ps), p, off);
  }

  /** A piece without room for the next paragraph ends where it must. */
  lemma AppendRightly(init: seq<string>, p: string, all: seq<string>, offs: seq<nat>, maxChars: nat, overlap: nat)
    requires init != [] && all != [] && Covers(init, all, offs, overlap)
    requires EndRightly(init, all, offs, maxChars, overlap)
    requires |all[|all| - 1]| + |SEP| + |p| > maxChars
    ensures var offs' := offs + [|Join(init)| + |SEP|];
            EndRightly(init + [p], all + [p], offs', maxChars, overlap) && LastInLast(init + [p], offs')
  {
    var ps, n, offs' := init + [p], |all|, offs + [|Join(init)| + |SEP|];
    var all' := all + [p];
    GrowRightly(init, p, all, offs, maxChars, overlap);
    assert ps[..|init|] == init && ParagraphStart(ps, |init|) == offs'[n];
    forall i | 0 <= i < n - 1 ensures EndsRightly(ps, all', offs', maxChars, overlap, i) {
      assert all'[i] == all[i] && EndsRightly(ps, all, offs, maxChars, overlap, i);
    }
    forall k | 0 < k < |ps| && offs'[n] == ParagraphStart(ps, k) ensures k == |init| {
      NewestStart(init, p, k);
    }
    assert EndsRightly(ps, all', offs', maxChars, overlap, n - 1);
  }

  lemma NewestStart(init: seq<string>, p: string, k: nat)
    requires init != [] && k <= |init| && ParagraphStart(init + [p], k) == |Join(init)| + |SEP|
    ensures k == |init|
  {
    assert (init + [p])[..|init|] == init;
    if k < |init| {
      ParagraphStartsApart(init + [p], k, |init|);
    }
  }

  lemma FirstPiece(p: string, overlap: nat)
    requires p != ""
    ensures Covers([p], [p], [0], overlap)
  {
    assert Join([p]) == p;
  }

  lemma {:induction false} PackCovers(ps: seq<string>, maxChars: nat, overlap: nat) returns (offs: seq<nat>)
    requires overlap < maxChars && NonEmpty(ps)
    ensures var s := Pack(ps, maxChars, overlap);
            Packed(ps, s, offs, maxChars, overlap) && |s.current| <= maxChars
  {
    if ps == [] {
      return [];
    }
    var n := |ps| - 1;
    var init, p := ps[..n], ps[n];
    assert init + [p] == ps;
    var s := Pack(init, maxChars, overlap);
    if n == 0 {
      FirstPiece(p, overlap);
      offs := WindowsCover(ps, Packing([], p), [0], maxChars, overlap);
      return;
    }
    offs := PackCovers(init, maxChars, overlap);
    JoinNonEmpty(init);
    offs := AddCovers(init, p, s, offs, maxChars, overlap);
  }

  /** One more paragraph. */
  lemma AddCovers(init: seq<string>, p: string, s: Packing, offs: seq<nat>, maxChars: nat, overlap: nat)
      returns (offs': seq<nat>)
    requires overlap < maxChars && init != [] && p != "" && s.current != ""
    requires Packed(init, s, offs, maxChars, overlap) && |s.current| <= maxChars
    ensures var r := Add(s, p, maxChars, overlap);
            Packed(init + [p], r, offs', maxChars, overlap) && |r.current| <= maxChars
  {
    if |s.current + SEP + p| <= maxChars {
      offs' := offs;
      ExtendLast(init, p, s.chunks, s.current, offs, overlap);
      GrowRightly(init, p, Flush(s), offs, maxChars, overlap);
      LastDoesNotMatter(init + [p], s.chunks, s.current, s.current + SEP + p, offs, maxChars, overlap);
    } else {
      AppendRightly(init, p, Flush(s), offs, maxChars, overlap);
      offs' := AppendPiece(init, p, Flush(s), offs, overlap);
      offs' := WindowsCover(init + [p], Packing(Flush(s), p), offs', maxChars, overlap);
    }
  }

  /** Every chunk is non-empty, fits, and is the substring of the joined text at its offset; offsets strictly
      increase; neighbours share exactly `overlap` characters or exactly one separator lies between them. A chunk that
      the next one overlaps is of full length and inside one paragraph; one that a separator ends has no room for the
      next paragraph. */
  lemma ChunksCover(ps: seq<string>, maxChars: nat, overlap: nat) returns (offs: seq<nat>)
    requires overlap < maxChars && NonEmpty(ps)
    ensures Covers(ps, Chunks(ps, maxChars, overlap), offs, overlap)
    ensures forall c | c in Chunks(ps, maxChars, overlap) :: 0 < |c| <= maxChars
    ensures IsCut(ps, Chunks(ps, maxChars, overlap), offs, maxChars, overlap)
  {
    offs := PackCovers(ps, maxChars, overlap);
  }

  lemma {:induction false} ParagraphStartsApart(ps: seq<string>, j: nat, k: nat)
    requires j < k <= |ps|
    ensures ParagraphStart(ps, j) + |ps[j]| + |SEP| <= ParagraphStart(ps, k)
    decreases k
  {
    assert ps[..k] == ps[..k - 1] + [ps[k - 1]];
    JoinSnoc(ps[..k - 1], ps[k - 1]);
    if j < k - 1 {
      ParagraphStartsApart(ps, j, k - 1);
    }
  }

  lemma {:induction false} ParagraphInText(ps: seq<string>, k: nat, c: nat)
    requires k < |ps| && c < |ps[k]|
    ensures ParagraphStart(ps, k) + c < |Join(ps)| && Join(ps)[ParagraphStart(ps, k) + c] == ps[k][c]
  {
    var n := |ps| - 1;
    assert ps == ps[..n] + [ps[n]];
    JoinSnoc(ps[..n], ps[n]);
    if k < n {
      ParagraphInText(ps[..n], k, c);
      assert ps[..n][..k] == ps[..k];
    }
  }

  /** In a cover, the last piece that starts at or before a paragraph's character reaches past it. */
  lemma PieceReaches(ps: seq<string>, pieces: seq<string>, offs: seq<nat>, overlap: nat, k: nat, c: nat, i: nat)
    requires Covers(ps, pieces, offs, overlap) && k < |ps| && c < |ps[k]| && i < |pieces|
    requires offs[i] <= ParagraphStart(ps, k) + c
    requires i + 1 < |pieces| ==> ParagraphStart(ps, k) + c < offs[i + 1]
    ensures ParagraphStart(ps, k) + c < offs[i] + |pieces[i]|
  {
    var pos := ParagraphStart(ps, k) + c;
    ParagraphInText(ps, k, c);
    if i + 1 < |pieces| && pos >= offs[i] + |pieces[i]| {
      assert Follows(ps, pieces, offs, overlap, i);
      var m :| 0 < m < |ps| && offs[i + 1] == ParagraphStart(ps, m);
      if k < m {
        ParagraphStartsApart(ps, k, m);
      } else if m < k {
        ParagraphStartsApart(ps, m, k);
      }
      assert false;
    }
  }

  /** No paragraph character is lost: character `c` of paragraph `k` stands in some chunk, at its place in the text. */
  lemma NothingLost(ps: seq<string>, maxChars: nat, overlap: nat, k: nat, c: nat)
      returns (offs: seq<nat>, i: nat, j: nat)
    requires overlap < maxChars && NonEmpty(ps) && k < |ps| && c < |ps[k]|
    ensures var chunks := Chunks(ps, maxChars, overlap);
            && Covers(ps, chunks, offs, overlap)
            && i < |chunks| && j < |chunks[i]| && chunks[i][j] == ps[k][c]
            && offs[i] + j == ParagraphStart(ps, k) + c
  {
    offs := ChunksCover(ps, maxChars, overlap);
    i, j := FindPiece(ps, Chunks(ps, maxChars, overlap), offs, overlap, k, c);
  }

  lemma FindPiece(ps: seq<string>, pieces: seq<string>, offs: seq<nat>, overlap: nat, k: nat, c: nat)
      returns (i: nat, j: nat)
    requires Covers(ps, pieces, offs, overlap) && k < |ps| && c < |ps[k]|
    ensures i < |pieces| && j < |pieces[i]| && pieces[i][j] == ps[k][c] && offs[i] + j == ParagraphStart(ps, k) + c
  {
    var pos := ParagraphStart(ps, k) + c;
    ParagraphInText(ps, k, c);
    i := LastStart(offs, pos);
    PieceReaches(ps, pieces, offs, overlap, k, c, i);
    j := pos - offs[i];
    assert PlacedAt(Join(ps), pieces[i], offs[i]);
  }

  lemma LastStart(offs: seq<nat>, pos: nat) returns (i: nat)
    requires offs != [] && offs[0] <= pos
    ensures i < |offs| && offs[i] <= pos && (i + 1 < |offs| ==> pos < offs[i + 1])
  {
    i := 0;
    while i + 1 < |offs| && offs[i + 1] <= pos
      invariant i < |offs| && offs[i] <= pos
    {
      i := i + 1;
    }
  }

  // -------------------------------------------------------------- uniqueness

  /** A longer piece from the same place would not fit. */
  lemma NoLonger(ps: seq<string>, a: seq<string>, b: seq<string>, offsA: seq<nat>, offsB: seq<nat>, maxChars: nat,
                 overlap: nat, i: nat)
    requires IsCut(ps, a, offsA, maxChars, overlap) && IsCut(ps, b, offsB, maxChars, overlap)
    requires i < |a| && i < |b| && offsA[i] == offsB[i]
    ensures |b[i]| <= |a[i]|
  {
    var endA, endB := offsA[i] + |a[i]|, offsB[i] + |b[i]|;
    assert PlacedAt(Join(ps), b[i], offsB[i]) && PlacedAt(Join(ps), a[i], offsA[i]);
    if endA < endB {
      assert i + 1 < |a| && Follows(ps, a, offsA, overlap, i) && EndsRightly(ps, a, offsA, maxChars, overlap, i);
      assert offsA[i + 1] + overlap != endA;
      var k :| 0 < k < |ps| && offsA[i + 1] == ParagraphStart(ps, k);
      AfterSeparator(ps, b, offsB, maxChars, overlap, i, endA, k);
    }
  }

  /** A piece that goes on past a separator reaches the end of the paragraph behind it. */
  lemma AfterSeparator(ps: seq<string>, b: seq<string>, offs: seq<nat>, maxChars: nat, overlap: nat, i: nat, end: nat,
                       k: nat)
    requires IsCut(ps, b, offs, maxChars, overlap) && i < |b| && 0 < k < |ps| && end + |SEP| == ParagraphStart(ps, k)
    requires offs[i] < end < offs[i] + |b[i]|
    ensures ParagraphStart(ps, k) + |ps[k]| <= offs[i] + |b[i]|
  {
    var endB := offs[i] + |b[i]|;
    if i + 1 == |b| {
      ParagraphEnds(ps, k);
    } else {
      assert Follows(ps, b, offs, overlap, i) && EndsRightly(ps, b, offs, maxChars, overlap, i);
      if offs[i + 1] + overlap == endB {
        var m :| 0 <= m < |ps| && ParagraphStart(ps, m) <= offs[i] && endB < ParagraphStart(ps, m) + |ps[m]|;
        StartsInOrder(ps, m, k);
        assert false;
      } else {
        var m :| 0 < m < |ps| && offs[i + 1] == ParagraphStart(ps, m);
        StartsInOrder(ps, k, m);
      }
    }
  }

  lemma StartsInOrder(ps: seq<string>, j: nat, k: nat)
    requires j < |ps| && k < |ps| && ParagraphStart(ps, j) < ParagraphStart(ps, k)
    ensures ParagraphStart(ps, j) + |ps[j]| + |SEP| <= ParagraphStart(ps, k)
  {
    if j < k {
      ParagraphStartsApart(ps, j, k);
    } else if k < j {
      ParagraphStartsApart(ps, k, j);
    }
  }

  lemma ParagraphEnds(ps: seq<string>, k: nat)
    requires k < |ps|
    ensures ParagraphStart(ps, k) + |ps[k]| <= |Join(ps)|
  {
    TextEnd(ps);
    if k < |ps| - 1 {
      ParagraphStartsApart(ps, k, |ps| - 1);
    }
  }

  /** A piece that is not the last one ends before the text does. */
  lemma NotLastEndsEarly(ps: seq<string>, a: seq<string>, offs: seq<nat>, maxChars: nat, overlap: nat, i: nat)
    requires IsCut(ps, a, offs, maxChars, overlap) && i + 1 < |a|
    ensures offs[i] + |a[i]| < |Join(ps)|
  {
    assert Follows(ps, a, offs, overlap, i) && EndsRightly(ps, a, offs, maxChars, overlap, i);
    var end := offs[i] + |a[i]|;
    if offs[i + 1] + overlap == end {
      var k :| 0 <= k < |ps| && ParagraphStart(ps, k) <= offs[i] && end < ParagraphStart(ps, k) + |ps[k]|;
      ParagraphEnds(ps, k);
    } else {
      assert PlacedAt(Join(ps), a[i + 1], offs[i + 1]);
    }
  }

  /** Where two cuts end a piece alike, the next ones start alike. */
  lemma NextStart(ps: seq<string>, a: seq<string>, b: seq<string>, offsA: seq<nat>, offsB: seq<nat>, maxChars: nat,
                  overlap: nat, i: nat)
    requires IsCut(ps, a, offsA, maxChars, overlap) && IsCut(ps, b, offsB, maxChars, overlap)
    requires i + 1 < |a| && i + 1 < |b| && offsA[i] == offsB[i] && |a[i]| == |b[i]|
    ensures offsA[i + 1] >= offsB[i + 1]
  {
    var end := offsA[i] + |a[i]|;
    assert Follows(ps, a, offsA, overlap, i) && EndsRightly(ps, a, offsA, maxChars, overlap, i);
    assert Follows(ps, b, offsB, overlap, i) && EndsRightly(ps, b, offsB, maxChars, overlap, i);
    if offsA[i + 1] + overlap == end && offsB[i + 1] + overlap != end {
      var m :| 0 <= m < |ps| && ParagraphStart(ps, m) <= offsA[i] && end < ParagraphStart(ps, m) + |ps[m]|;
      var k :| 0 < k < |ps| && offsB[i + 1] == ParagraphStart(ps, k);
      StartsInOrder(ps, m, k);
      assert false;
    }
  }

  lemma {:induction false} CutsAgree(ps: seq<string>, a: seq<string>, b: seq<string>, offsA: seq<nat>, offsB: seq<nat>,
                                     maxChars: nat, overlap: nat, i: nat)
    requires IsCut(ps, a, offsA, maxChars, overlap) && IsCut(ps, b, offsB, maxChars, overlap) && i < |a|
    ensures i < |b| && offsA[i] == offsB[i] && a[i] == b[i] && (i + 1 < |a| <==> i + 1 < |b|)
  {
    if i > 0 {
      CutsAgree(ps, a, b, offsA, offsB, maxChars, overlap, i - 1);
      NextStart(ps, a, b, offsA, offsB, maxChars, overlap, i - 1);
      NextStart(ps, b, a, offsB, offsA, maxChars, overlap, i - 1);
    }
    NoLonger(ps, a, b, offsA, offsB, maxChars, overlap, i);
    NoLonger(ps, b, a, offsB, offsA, maxChars, overlap, i);
    assert PlacedAt(Join(ps), a[i], offsA[i]) && PlacedAt(Join(ps), b[i], offsB[i]);
    if i + 1 < |a| {
      NotLastEndsEarly(ps, a, offsA, maxChars, overlap, i);
    }
    if i + 1 < |b| {
      NotLastEndsEarly(ps, b, offsB, maxChars, overlap, i);
    }
  }

  /** There is only one cut: whatever covers the text by pieces that fit and end where they must is the list of
      chunks. */
  lemma ChunksAreTheOnlyCut(ps: seq<string>, pieces: seq<string>, offs: seq<nat>, maxChars: nat, overlap: nat)
    requires overlap < maxChars && NonEmpty(ps) && IsCut(ps, pieces, offs, maxChars, overlap)
    ensures pieces == Chunks(ps, maxChars, overlap)
  {
    var chunks := Chunks(ps, maxChars, overlap);
    var offs' := ChunksCover(ps, maxChars, overlap);
    forall i | 0 <= i < |pieces|
      ensures i < |chunks| && pieces[i] == chunks[i] && (i + 1 < |pieces| <==> i + 1 < |chunks|)
    {
      CutsAgree(ps, pieces, chunks, offs, offs', maxChars, overlap, i);
    }
    if pieces != [] {
      assert |pieces| - 1 < |chunks|;
    }
  }

  // -------------------------------------------------------------- optimality

  ghost predicate AllFit(ps: seq<string>, maxChars: nat) {
    forall k | 0 <= k < |ps| :: |ps[k]| <= maxChars
  }

  function Concat(runs: seq<seq<string>>): seq<string> {
    if runs == [] then [] else Concat(runs[..|runs| - 1]) + runs[|runs| - 1]
  }

  /** A split of the paragraph list into contiguous runs, each of which fits in one chunk. */
  ghost predicate SplitsInto(ps: seq<string>, runs: seq<seq<string>>, maxChars: nat) {
    Concat(runs) == ps && forall i | 0 <= i < |runs| :: |Join(runs[i])| <= maxChars
  }

  /** The next paragraph joins the last run if it still fits there. */
  ghost function Extend(runs: seq<seq<string>>, p: string, maxChars: nat): (r: seq<seq<string>>)
    ensures r != [] && r[|r| - 1] != []
    ensures r[|r| - 1] == [p] || (runs != [] && r[|r| - 1] == runs[|runs| - 1] + [p])
  {
    if runs != [] && |Join(runs[|runs| - 1] + [p])| <= maxChars
    then runs[..|runs| - 1] + [runs[|runs| - 1] + [p]]
    else runs + [[p]]
  }

  /** The runs that greedy packing forms. */
  ghost function GreedyRuns(ps: seq<string>, maxChars: nat): (runs: seq<seq<string>>)
    ensures ps != [] ==> runs != [] && runs[|runs| - 1] != []
  {
    if ps == [] then [] else Extend(GreedyRuns(ps[..|ps| - 1], maxChars), ps[|ps| - 1], maxChars)
  }

  lemma ConcatSnoc(runs: seq<seq<string>>, r: seq<string>)
    ensures Concat(runs + [r]) == Concat(runs) + r
  {
    assert (runs + [r])[..|runs|] == runs;
  }

  /** Adding a paragraph to the last run, or as a run of its own, adds it to the list. */
  lemma ConcatExtend(runs: seq<seq<string>>, p: string)
    ensures Concat(runs + [[p]]) == Concat(runs) + [p]
    ensures runs != [] ==> Concat(runs[..|runs| - 1] + [runs[|runs| - 1] + [p]]) == Concat(runs) + [p]
  {
    ConcatSnoc(runs, [p]);
    if runs != [] {
      var front, last := runs[..|runs| - 1], runs[|runs| - 1];
      ConcatSnoc(front, last + [p]);
      assert Concat(front) + last + [p] == Concat(front) + (last + [p]);
    }
  }

  lemma ExtendSplits(ps: seq<string>, runs: seq<seq<string>>, p: string, maxChars: nat)
    requires SplitsInto(ps, runs, maxChars) && |p| <= maxChars
    ensures SplitsInto(ps + [p], Extend(runs, p, maxChars), maxChars)
  {
    ConcatExtend(runs, p);
    assert Join([p]) == p;
  }

  lemma {:induction false} GreedyRunsSplit(ps: seq<string>, maxChars: nat)
    requires AllFit(ps, maxChars)
    ensures SplitsInto(ps, GreedyRuns(ps, maxChars), maxChars)
  {
    if ps != [] {
      var init, p := ps[..|ps| - 1], ps[|ps| - 1];
      var runs := GreedyRuns(init, maxChars);
      assert SplitsInto(init + [p], Extend(runs, p, maxChars), maxChars) by {
        GreedyRunsSplit(init, maxChars);
        ExtendSplits(init, runs, p, maxChars);
      }
      assert init + [p] == ps;
    }
  }

  /** Finished chunks and current chunk are the joined runs, in order. */
  ghost predicate Mirrors(s: Packing, runs: seq<seq<string>>) {
    if runs == [] then s == Packing([], "")
    else
      && |s.chunks| == |runs| - 1
      && (forall i | 0 <= i < |runs| - 1 :: s.chunks[i] == Join(runs[i]))
      && s.current == Join(runs[|runs| - 1]) != ""
  }

  lemma AddMirrors(s: Packing, runs: seq<seq<string>>, p: string, maxChars: nat, overlap: nat)
    requires overlap < maxChars && p != "" && |p| <= maxChars && Mirrors(s, runs)
    requires runs != [] ==> runs[|runs| - 1] != []
    ensures Mirrors(Add(s, p, maxChars, overlap), Extend(runs, p, maxChars))
  {
    assert Join([p]) == p;
    if runs != [] {
      JoinSnoc(runs[|runs| - 1], p);
    }
  }

  lemma {:induction false} PackMirrors(ps: seq<string>, maxChars: nat, overlap: nat)
    requires overlap < maxChars && NonEmpty(ps) && AllFit(ps, maxChars)
    ensures Mirrors(Pack(ps, maxChars, overlap), GreedyRuns(ps, maxChars))
  {
    if ps != [] {
      var n := |ps| - 1;
      PackMirrors(ps[..n], maxChars, overlap);
      AddMirrors(Pack(ps[..n], maxChars, overlap), GreedyRuns(ps[..n], maxChars), ps[n], maxChars, overlap);
    }
  }

  /** When every paragraph fits, the chunks are the joined runs of a split of the paragraph list. */
  lemma ChunksAreRuns(ps: seq<string>, maxChars: nat, overlap: nat)
    requires overlap < maxChars && NonEmpty(ps) && AllFit(ps, maxChars)
    ensures var runs := GreedyRuns(ps, maxChars);
            && SplitsInto(ps, runs, maxChars)
            && |Chunks(ps, maxChars, overlap)| == |runs|
            && (forall i | 0 <= i < |runs| :: Chunks(ps, maxChars, overlap)[i] == Join(runs[i]))
  {
    GreedyRunsSplit(ps, maxChars);
    PackMirrors(ps, maxChars, overlap);
  }

  lemma {:induction false} JoinConcat(a: seq<string>, b: seq<string>)
    requires a != [] && b != []
    ensures Join(a + b) == Join(a) + SEP + Join(b)
  {
    var n := |b| - 1;
    var front, p := b[..n], b[n];
    if front == [] {
      assert b == [p];
      JoinSnoc(a, p);
    } else {
      assert b == front + [p];
      assert a + b == (a + front) + [p];
      JoinConcat(a, front);
      JoinSnoc(a + front, p);
      JoinSnoc(front, p);
      Regroup(Join(a) + SEP, Join(front), p);
    }
  }

  lemma Regroup(s: string, t: string, p: string)
    ensures s + t + SEP + p == s + (t + SEP + p)
  {
  }

  /** `a` has more runs than `b`, or as many with a last run at least as long. */
  ghost predicate NoBetter(a: seq<seq<string>>, b: seq<seq<string>>)
    requires a != [] && b != []
  {
    |a| > |b| || (|a| == |b| && |a[|a| - 1]| >= |b[|b| - 1]|)
  }

  /** Greedy stays ahead of every other split. */
  lemma {:induction false} GreedyStaysAhead(ps: seq<string>, runs: seq<seq<string>>, maxChars: nat)
    requires ps != [] && AllFit(ps, maxChars) && SplitsInto(ps, runs, maxChars)
    ensures runs != [] && NoBetter(runs, GreedyRuns(ps, maxChars))
    decreases |ps|, |runs|
  {
    var m, n := |runs| - 1, |ps| - 1;
    var front, last := runs[..m], runs[m];
    if last == [] {
      assert SplitsInto(ps, front, maxChars);
      GreedyStaysAhead(ps, front, maxChars);
    } else if n == 0 {
      assert GreedyRuns(ps[..n], maxChars) == [];
    } else if |last| == 1 {
      assert Concat(front) == ps[..n];
      GreedyStaysAhead(ps[..n], front, maxChars);
    } else {
      var short := ShortenLastRun(ps, runs, maxChars);
      GreedyStaysAhead(ps[..n], front + [short], maxChars);
      assert |Join(short + [ps[n]])| <= maxChars;
      AheadStep(ps, front, short, maxChars);
    }
  }

  /** Where the other split still adds to its last run, greedy, whose last run is no longer, does too. */
  lemma AheadStep(ps: seq<string>, front: seq<seq<string>>, short: seq<string>, maxChars: nat)
    requires |ps| > 1 && AllFit(ps, maxChars)
    requires var n := |ps| - 1;
             && |short| <= n && ps[n - |short|..n] == short && |Join(short + [ps[n]])| <= maxChars
             && NoBetter(front + [short], GreedyRuns(ps[..n], maxChars))
    ensures NoBetter(front + [short + [ps[|ps| - 1]]], GreedyRuns(ps, maxChars))
  {
    var n := |ps| - 1;
    var greedy := GreedyRuns(ps[..n], maxChars);
    var run := greedy[|greedy| - 1];
    if |front| + 1 == |greedy| {
      GreedyRunIsSuffix(ps[..n], maxChars);
      LongerSuffixIsLonger(ps[..n], short, run, ps[n]);
    }
  }

  lemma ShortenLastRun(ps: seq<string>, runs: seq<seq<string>>, maxChars: nat) returns (short: seq<string>)
    requires SplitsInto(ps, runs, maxChars) && runs != [] && |runs[|runs| - 1]| > 1
    ensures var n, m := |ps| - 1, |runs| - 1;
            && n >= 0 && runs[m] == short + [ps[n]] && |short| <= n && ps[n - |short|..n] == short
            && SplitsInto(ps[..n], runs[..m] + [short], maxChars)
  {
    var m := |runs| - 1;
    var front, last := runs[..m], runs[m];
    assert ps == Concat(front) + last;
    short := last[..|last| - 1];
    assert last == short + [last[|last| - 1]];
    JoinSnoc(short, last[|last| - 1]);
    ConcatSnoc(front, short);
    assert Concat(front) + short == ps[..|ps| - 1];
  }

  ghost predicate IsSuffix(run: seq<string>, ps: seq<string>) {
    |run| <= |ps| && ps[|ps| - |run|..] == run
  }

  lemma SuffixGrows(run: seq<string>, ps: seq<string>, p: string)
    requires IsSuffix(run, ps)
    ensures IsSuffix(run + [p], ps + [p])
  {
    assert (ps + [p])[|ps| - |run|..] == ps[|ps| - |run|..] + [p];
  }

  lemma {:induction false} GreedyRunIsSuffix(ps: seq<string>, maxChars: nat)
    requires ps != []
    ensures var runs := GreedyRuns(ps, maxChars); IsSuffix(runs[|runs| - 1], ps)
  {
    var init, p := ps[..|ps| - 1], ps[|ps| - 1];
    assert ps == init + [p];
    if init == [] {
      assert GreedyRuns(ps, maxChars) == Extend([], p, maxChars);
    } else {
      GreedyRunIsSuffix(init, maxChars);
      var before := GreedyRuns(init, maxChars);
      SuffixGrows(before[|before| - 1], init, p);
      assert IsSuffix([p], ps);
    }
  }

  lemma LongerSuffixIsLonger(ps: seq<string>, long: seq<string>, short: seq<string>, p: string)
    requires short != [] && |short| <= |long| && IsSuffix(long, ps) && IsSuffix(short, ps)
    ensures |Join(short + [p])| <= |Join(long + [p])|
  {
    var front := long[..|long| - |short|];
    assert long == front + short;
    assert long + [p] == front + (short + [p]);
    if front != [] {
      JoinConcat(front, short + [p]);
    } else {
      assert long == short;
    }
  }

  /** When every paragraph fits, no split into runs that fit has fewer runs than there are chunks. */
  lemma ChunksAreFewest(ps: seq<string>, runs: seq<seq<string>>, maxChars: nat, overlap: nat)
    requires overlap < maxChars && NonEmpty(ps) && AllFit(ps, maxChars) && SplitsInto(ps, runs, maxChars)
    ensures |Chunks(ps, maxChars, overlap)| <= |runs|
  {
    ChunksAreRuns(ps, maxChars, overlap);
    if ps != [] {
      GreedyStaysAhead(ps, runs, maxChars);
    }
  }
}
