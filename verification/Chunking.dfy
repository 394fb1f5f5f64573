/** Splitting a text into overlapping embeddable chunks that lose nothing but blank space. */
module Chunking {
  import opened Texts
  import opened Wrappers

  const CHUNK_TARGET := 800
  const CHUNK_MAX := 1200
  const CHUNK_OVERLAP := 150
  const OPENING_CHARS := 400

  datatype Chunk = Chunk(ix: int, charStart: int, charLen: int, text: string)

  // ---------------------------------------------------------------------
  // Where a window is cut
  // ---------------------------------------------------------------------

  /** How many bytes a text takes in UTF-8. */
  function ByteLen(s: string): (n: nat) {
    if s == "" then 0 else |Utf8(s[0])| + ByteLen(s[1..])
  }

  predicate FenceAt(w: string, k: int) {
    0 <= k && k + 3 <= |w| && w[k] == w[k + 1] == w[k + 2] == '`'
  }

  /** The first fence at or after a position, as a count of characters. */
  function FirstFence(w: string, k: nat): (r: Option<nat>)
    requires k <= |w|
    ensures r.Some? ==> k <= r.value && FenceAt(w, r.value) && forall j | k <= j < r.value :: !FenceAt(w, j)
    ensures r.None? ==> forall j | k <= j :: !FenceAt(w, j)
    decreases |w| - k
  {
    if FenceAt(w, k) then Some(k) else if k == |w| then None else FirstFence(w, k + 1)
  }

  /** `str::find` of a fence from a character position on: the offset is counted in bytes. */
  function FindFence(w: string, k: nat): Option<nat>
    requires k <= |w|
  {
    match FirstFence(w, k)
    case Some(f) => Some(ByteLen(w[k..f]))
    case None => None
  }

  /**
    Just past a fence that opens and closes inside the window, when that lies in the cutting range.
    Byte offsets are added to a character position, so the point is the close only in ASCII text.
   */
  function FenceCut(chars: string, start: nat, target: nat, hard: nat): (r: Option<nat>)
    requires start <= target < hard <= |chars|
  {
    var window := chars[start..hard];
    match FirstFence(window, 0)
    case None => None
    case Some(open) =>
      match FindFence(window, open + 3)
      case None => None
      case Some(close) =>
        var after := start + ByteLen(window[..open]) + 3 + close + 3;
        if target < after <= hard then Some(after) else None
  }

  predicate ParagraphBreakAt(chars: string, i: int) {
    0 <= i && i + 1 < |chars| && chars[i] == '\n' && chars[i + 1] == '\n'
  }

  predicate SentenceEndAt(chars: string, i: int) {
    && 0 <= i < |chars| && (chars[i] == '.' || chars[i] == '!' || chars[i] == '?')
    && (i + 1 < |chars| ==> IsWhite(chars[i + 1]))
  }

  ghost predicate SentenceOf(chars: string, i: int, a: string, stop: char, b: string) {
    && i == |a| && chars == a + [stop] + b && (stop == '.' || stop == '!' || stop == '?')
    && (b == "" || IsWhite(b[0]))
  }

  /** A paragraph ends in a blank line; a sentence in a stop before white space or at the end of the text. */
  lemma BreaksAreBlankLinesAndStops(chars: string, i: int)
    ensures ParagraphBreakAt(chars, i) <==> exists a, b :: i == |a| && chars == a + "\n\n" + b
    ensures SentenceEndAt(chars, i) <==> exists a, stop, b :: SentenceOf(chars, i, a, stop, b)
  {
    if ParagraphBreakAt(chars, i) {
      assert chars == chars[..i] + "\n\n" + chars[i + 2..];
    }
    if SentenceEndAt(chars, i) {
      assert SentenceOf(chars, i, chars[..i], chars[i], chars[i + 1..]);
    }
  }

  /** A cut the search may return: the preferences in order, each at its first position. */
  ghost predicate IsBreak(chars: string, start: nat, target: nat, hard: nat, r: nat)
    requires start <= target < hard <= |chars|
  {
    var fence := FenceCut(chars, start, target, hard);
    if fence.Some? then r == fence.value
    else if exists i :: target <= i < hard - 1 && ParagraphBreakAt(chars, i) then
      target + 2 <= r && ParagraphBreakAt(chars, r - 2) && r <= hard
      && forall i | target <= i < r - 2 :: !ParagraphBreakAt(chars, i)
    else if exists i :: target <= i < hard && SentenceEndAt(chars, i) then
      target < r <= hard && SentenceEndAt(chars, r - 1) && forall i | target <= i < r - 1 :: !SentenceEndAt(chars, i)
    else r == hard
  }

  function FirstParagraphBreak(chars: string, i: nat, hard: nat): (r: Option<nat>)
    requires i <= hard <= |chars|
    ensures r.Some? ==> i <= r.value < hard - 1 && ParagraphBreakAt(chars, r.value)
                        && forall j | i <= j < r.value :: !ParagraphBreakAt(chars, j)
    ensures r.None? ==> forall j | i <= j < hard - 1 :: !ParagraphBreakAt(chars, j)
    decreases hard - i
  {
    if i + 1 >= hard then None
    else if ParagraphBreakAt(chars, i) then Some(i)
    else FirstParagraphBreak(chars, i + 1, hard)
  }

  function FirstSentenceEnd(chars: string, i: nat, hard: nat): (r: Option<nat>)
    requires i <= hard <= |chars|
    ensures r.Some? ==> i <= r.value < hard && SentenceEndAt(chars, r.value)
                        && forall j | i <= j < r.value :: !SentenceEndAt(chars, j)
    ensures r.None? ==> forall j | i <= j < hard :: !SentenceEndAt(chars, j)
    decreases hard - i
  {
    if i >= hard then None
    else if SentenceEndAt(chars, i) then Some(i)
    else FirstSentenceEnd(chars, i + 1, hard)
  }

  /** Where a window is cut when no fence sets the cut. */
  function TextCut(chars: string, target: nat, hard: nat): (r: nat)
    requires target < hard <= |chars|
    ensures target < r <= hard
  {
    var paragraph := FirstParagraphBreak(chars, target, hard);
    var sentence := FirstSentenceEnd(chars, target, hard);
    if paragraph.Some? then paragraph.value + 2
    else if sentence.Some? then sentence.value + 1
    else hard
  }

  function CutPoint(chars: string, start: nat, target: nat, hard: nat): (r: nat)
    requires start <= target < hard <= |chars|
  {
    var fence := FenceCut(chars, start, target, hard);
    if fence.Some? then fence.value else TextCut(chars, target, hard)
  }

  method FindBreak(chars: string, start: nat, target: nat, hard: nat) returns (r: nat)
    requires start <= target < hard <= |chars|
    ensures r == CutPoint(chars, start, target, hard)
    ensures IsBreak(chars, start, target, hard, r) && target < r <= hard
  {
    var fence := FenceCut(chars, start, target, hard);
    if fence.Some? {
      return fence.value;
    }
    var i := target;
    while i < hard - 1
      invariant target <= i <= hard && (i < hard - 1 || i == target || i == hard - 1)
      invariant forall j | target <= j < i :: !ParagraphBreakAt(chars, j)
      invariant FirstParagraphBreak(chars, i, hard) == FirstParagraphBreak(chars, target, hard)
    {
      if ParagraphBreakAt(chars, i) {
        return i + 2;
      }
      i := i + 1;
    }
    i := target;
    while i < hard
      invariant target <= i <= hard
      invariant forall j | target <= j < i :: !SentenceEndAt(chars, j)
      invariant FirstSentenceEnd(chars, i, hard) == FirstSentenceEnd(chars, target, hard)
    {
      if SentenceEndAt(chars, i) {
        return i + 1;
      }
      i := i + 1;
    }
    return hard;
  }

  // ---------------------------------------------------------------------
  // When a cut splits a fenced block
  // ---------------------------------------------------------------------

  /** A cut falls strictly inside a stretch of text. */
  predicate Splits(cut: int, begin: int, end: int) {
    begin < cut < end
  }

  predicate IsAscii(s: string) {
    forall i | 0 <= i < |s| :: s[i] < '\U{80}'
  }

  /** Only ASCII text has as many bytes as characters. */
  lemma {:induction false} ByteLenCountsExtraBytes(s: string)
    ensures ByteLen(s) >= |s| && (ByteLen(s) == |s| <==> IsAscii(s))
  {
    if s != "" {
      ByteLenCountsExtraBytes(s[1..]);
      assert IsAscii(s) <==> s[0] < '\U{80}' && IsAscii(s[1..]) by {
        assert forall i | 0 < i < |s| :: s[i] == s[1..][i - 1];
      }
    }
  }

  ghost predicate FirstPair(window: string, open: nat, close: nat) {
    FirstFence(window, 0) == Some(open) && open + 3 <= |window| && FirstFence(window, open + 3) == Some(close)
  }

  /** The point the search compares with its range: byte offsets added to a character position. */
  function FencePoint(chars: string, start: nat, hard: nat, open: nat, close: nat): nat
    requires start <= hard <= |chars| && open + 3 <= close <= hard - start
  {
    var window := chars[start..hard];
    start + ByteLen(window[..open]) + 3 + ByteLen(window[open + 3..close]) + 3
  }

  /** That point is never before the end of the block, and is its end exactly when the text up to the close is ASCII. */
  lemma FencePointIsTheCloseIffAscii(chars: string, start: nat, hard: nat, open: nat, close: nat)
    requires start <= hard <= |chars| && FirstPair(chars[start..hard], open, close)
    ensures open + 3 <= close && start + close + 3 <= hard
    ensures start + close + 3 <= FencePoint(chars, start, hard, open, close)
    ensures FencePoint(chars, start, hard, open, close) == start + close + 3 <==> IsAscii(chars[start..start + close])
  {
    var window := chars[start..hard];
    ByteLenCountsExtraBytes(window[..open]);
    ByteLenCountsExtraBytes(window[open + 3..close]);
    FenceIsAscii(window, open, close);
    assert window[..close] == chars[start..start + close];
  }

  /**
    A window's first block, fences included, is split exactly when the fence point lies past the window and the cut
    that the text then sets falls inside the block. ASCII text never gets there.
   */
  lemma FirstBlockIsSplitIff(chars: string, start: nat, target: nat, hard: nat, open: nat, close: nat)
    requires start <= target < hard <= |chars| && FirstPair(chars[start..hard], open, close)
    ensures open + 3 <= close <= hard - start
    ensures Splits(CutPoint(chars, start, target, hard), start + open, start + close + 3) <==>
              FencePoint(chars, start, hard, open, close) > hard
              && Splits(TextCut(chars, target, hard), start + open, start + close + 3)
    ensures IsAscii(chars[start..start + close]) ==>
              !Splits(CutPoint(chars, start, target, hard), start + open, start + close + 3)
  {
    hide TextCut, ByteLen, IsAscii, FencePoint;
    FencePointIsTheCloseIffAscii(chars, start, hard, open, close);
    FenceCutIsTheFencePoint(chars, start, target, hard, open, close);
  }

  lemma FenceCutIsTheFencePoint(chars: string, start: nat, target: nat, hard: nat, open: nat, close: nat)
    requires start <= target < hard <= |chars| && FirstPair(chars[start..hard], open, close)
    ensures open + 3 <= close <= hard - start
    ensures var point := FencePoint(chars, start, hard, open, close);
            FenceCut(chars, start, target, hard) == if target < point <= hard then Some(point) else None
  {
  }

  lemma FenceSetsTheCut(chars: string, start: nat, target: nat, hard: nat, open: nat, close: nat)
    requires start <= target < hard <= |chars| && FirstPair(chars[start..hard], open, close)
    requires IsAscii(chars[start..start + close]) && target < start + close + 3
    ensures CutPoint(chars, start, target, hard) == start + close + 3
  {
    hide TextCut, ByteLen, IsAscii, FencePoint, FenceCut, FirstPair;
    FencePointIsTheCloseIffAscii(chars, start, hard, open, close);
    FenceCutIsTheFencePoint(chars, start, target, hard, open, close);
  }

  /** A stretch from one fence of the text to the end of the next. */
  ghost predicate IsStretch(chars: string, begin: nat, end: nat) {
    FenceAt(chars, begin) && begin + 6 <= end <= |chars| && FirstFence(chars, begin + 3) == Some((end - 3) as nat)
  }

  /** Two fences that share no character, unless they are one. */
  predicate Apart(a: int, b: int) {
    a == b || a + 3 <= b || b + 3 <= a
  }

  /**
    When a fence sets the cut of ASCII text, the cut splits the stretch that begins at the window's second fence and no
    other: a block is split exactly when that fence opens it, as happens in a window that begins inside the block before.
   */
  lemma FenceCutSplitsIff(chars: string, start: nat, target: nat, hard: nat, open: nat, close: nat, begin: nat, end: nat)
    requires start <= target < hard <= |chars| && FirstPair(chars[start..hard], open, close)
    requires IsAscii(chars[start..start + close]) && target < start + close + 3
    requires IsStretch(chars, begin, end) && start <= begin
    requires Apart(begin, start + open) && Apart(begin, start + close)
    ensures Splits(CutPoint(chars, start, target, hard), begin, end) <==> begin == start + close
  {
    hide CutPoint, IsAscii;
    var window := chars[start..hard];
    FenceSetsTheCut(chars, start, target, hard, open, close);
    assert FenceAt(window, open) && FenceAt(window, close);
    assert begin < start + close ==> FenceAt(window, begin - start);
    if begin == start + open {
      assert FenceAt(chars, start + close);
    }
  }

  lemma FenceIsAscii(window: string, open: nat, close: nat)
    requires FenceAt(window, open) && open + 3 <= close <= |window|
    ensures IsAscii(window[..close]) <==> IsAscii(window[..open]) && IsAscii(window[open + 3..close])
  {
    var before, inside, all := window[..open], window[open + 3..close], window[..close];
    assert forall i | 0 <= i < open :: all[i] == before[i];
    assert forall i | open + 3 <= i < close :: all[i] == inside[i - (open + 3)];
    assert forall i | 0 <= i < |inside| :: inside[i] == all[i + (open + 3)];
  }

  // ---------------------------------------------------------------------
  // Two blocks that fit and are split
  // ---------------------------------------------------------------------

  const ACCENTED := "\U{E9}```. ```"

  /** Nine characters hold the whole block, but the accent's second byte puts the fence point past them. */
  lemma NonAsciiBlockIsSplit()
    ensures FirstPair(ACCENTED, 1, 6) && CutPoint(ACCENTED, 0, 3, 9) == 5 && Splits(5, 1, 9)
  {
    assert ACCENTED[0..9] == ACCENTED;
    FirstFenceIs(ACCENTED, 0, 1);
    FirstFenceIs(ACCENTED, 4, 6);
    assert ByteLen(ACCENTED[..1]) == 2 && ACCENTED[4..6] == ". ";
    assert ByteLen(". ") == 2;
    FenceCutIsTheFencePoint(ACCENTED, 0, 3, 9, 1, 6);
    assert FirstParagraphBreak(ACCENTED, 3, 9).None?;
    assert SentenceEndAt(ACCENTED, 4) && !SentenceEndAt(ACCENTED, 3);
  }

  lemma FirstFenceIs(w: string, k: nat, f: nat)
    requires k <= f && FenceAt(w, f) && forall j | k <= j < f :: !FenceAt(w, j)
    ensures FirstFence(w, k) == Some(f)
  {
  }

  predicate InLongFence(i: int) {
    700 <= i < 703 || 897 <= i < 900 || 1600 <= i < 1603 || 1697 <= i < 1700
  }

  /** Two short blocks in 2,600 ASCII characters. */
  const LONG_TEXT: string := seq(2600, i => if InLongFence(i) then '`' else 'a')

  // ---------------------------------------------------------------------
  // The windows and the chunks
  // ---------------------------------------------------------------------

  function WindowEnd(chars: string, start: nat): (end: nat)
    requires start < |chars|
    ensures start < end <= |chars| && end <= start + CHUNK_MAX
    ensures end < |chars| ==> start + CHUNK_TARGET < end
  {
    if start + CHUNK_MAX >= |chars| then |chars|
    else CutPoint(chars, start, start + CHUNK_TARGET, start + CHUNK_MAX)
  }

  type Window = (nat, nat)

  /** The windows cut from a start to the end of the text. */
  function Windows(chars: string, start: nat): seq<Window>
    requires start < |chars|
    decreases |chars| - start
  {
    var end := WindowEnd(chars, start);
    if end >= |chars| then [(start, end)] else [(start, end)] + Windows(chars, end - CHUNK_OVERLAP)
  }

  function ChunksOf(chars: string, ws: seq<Window>, ix: nat): seq<Chunk>
    requires forall i | 0 <= i < |ws| :: ws[i].0 <= ws[i].1 <= |chars|
  {
    if ws == [] then []
    else
      var (start, end) := ws[0];
      if Blank(chars[start..end]) then ChunksOf(chars, ws[1..], ix)
      else [Chunk(ix, start, end - start, chars[start..end])] + ChunksOf(chars, ws[1..], ix + 1)
  }

  function Opening(text: string): Chunk {
    var n := if OPENING_CHARS < |text| then OPENING_CHARS else |text|;
    Chunk(0, 0, n, text[..n])
  }

  function Chunked(text: string): seq<Chunk> {
    if text == "" then []
    else if |text| <= OPENING_CHARS then [Opening(text)]
    else
      WindowsAreInside(text, 0);
      [Opening(text)] + ChunksOf(text, Windows(text, 0), 1)
  }

  lemma {:induction false} WindowsAreInside(chars: string, start: nat)
    requires start < |chars|
    ensures forall i | 0 <= i < |Windows(chars, start)| ::
              var w := Windows(chars, start)[i]; start <= w.0 < w.1 <= |chars| && w.1 <= w.0 + CHUNK_MAX
    decreases |chars| - start
  {
    hide CutPoint;
    var end := WindowEnd(chars, start);
    if end < |chars| {
      WindowsAreInside(chars, end - CHUNK_OVERLAP);
    }
  }

  /** The chunks still to come from a start on, numbered from a position. */
  function ChunksFrom(text: string, start: nat, ix: nat): seq<Chunk>
    requires start < |text|
  {
    WindowsAreInside(text, start);
    ChunksOf(text, Windows(text, start), ix)
  }

  function Piece(text: string, start: nat, end: nat, ix: nat): seq<Chunk>
    requires start <= end <= |text|
  {
    if Blank(text[start..end]) then [] else [Chunk(ix, start, end - start, text[start..end])]
  }

  lemma ChunksFromStep(text: string, start: nat, ix: nat)
    requires start < |text|
    ensures var end := WindowEnd(text, start);
            var piece := Piece(text, start, end, ix);
            ChunksFrom(text, start, ix)
            == if end >= |text| then piece
               else piece + ChunksFrom(text, end - CHUNK_OVERLAP, ix + |piece|)
  {
    hide WindowEnd, Texts.Blank;
    var end := WindowEnd(text, start);
    WindowsAreInside(text, start);
    var ws := Windows(text, start);
    var piece := Piece(text, start, end, ix);
    if end < |text| {
      WindowsAreInside(text, end - CHUNK_OVERLAP);
      assert ws[1..] == Windows(text, end - CHUNK_OVERLAP);
    } else {
      assert ws[1..] == [] && piece + [] == piece;
    }
    assert ChunksOf(text, ws, ix) == piece + ChunksOf(text, ws[1..], ix + |piece|);
  }

  method ChunkText(text: string) returns (out: seq<Chunk>)
    ensures out == Chunked(text)
  {
    hide CutPoint, Texts.Blank, ChunksOf, Windows, IsBreak;
    if |text| == 0 {
      return [];
    }
    out := [Opening(text)];
    if |text| <= OPENING_CHARS {
      return;
    }
    var start := 0;
    ghost var whole := Chunked(text);
    while start < |text|
      invariant start < |text|
      invariant out + ChunksFrom(text, start, |out|) == whole
      decreases |text| - start
    {
      hide ChunksFrom, Opening;
      var hardEnd := if start + CHUNK_MAX < |text| then start + CHUNK_MAX else |text|;
      var targetEnd := if start + CHUNK_TARGET < |text| then start + CHUNK_TARGET else |text|;
      var end := hardEnd;
      if hardEnd != |text| {
        end := FindBreak(text, start, targetEnd, hardEnd);
      }
      assert end == WindowEnd(text, start);
      ChunksFromStep(text, start, |out|);
      ghost var before := out;
      var slice := text[start..end];
      if !Blank(slice) {
        out := out + [Chunk(|out|, start, end - start, slice)];
      }
      assert out == before + Piece(text, start, end, |before|);
      if end >= |text| {
        break;
      }
      start := if end - CHUNK_OVERLAP > start + 1 then end - CHUNK_OVERLAP else start + 1;
    }
  }

  // ---------------------------------------------------------------------
  // A block split because its window began inside another
  // ---------------------------------------------------------------------

  /** The fenced blocks of a text, pairing its fences from a position on. */
  function Blocks(chars: string, from: nat): seq<Window>
    requires from <= |chars|
    decreases |chars| - from
  {
    var open := FirstFence(chars, from);
    if open.None? then []
    else
      var close := FirstFence(chars, open.value + 3);
      if close.None? then [] else [(open.value, close.value + 3)] + Blocks(chars, close.value + 3)
  }

  lemma LongTextFences(k: int)
    ensures FenceAt(LONG_TEXT, k) <==> k == 700 || k == 897 || k == 1600 || k == 1697
  {
  }

  lemma LongTextIsAscii(start: nat, end: nat)
    requires start <= end <= 2600
    ensures IsAscii(LONG_TEXT[start..end])
  {
  }

  lemma FenceInWindow(chars: string, start: nat, hard: nat, k: nat)
    requires start <= hard <= |chars|
    ensures FenceAt(chars[start..hard], k) <==> start + k + 3 <= hard && FenceAt(chars, start + k)
  {
  }

  lemma PairInWindow(chars: string, start: nat, hard: nat, open: nat, close: nat)
    requires start <= open && open + 3 <= close && close + 3 <= hard <= |chars|
    requires FenceAt(chars, open) && FenceAt(chars, close)
    requires forall k | start <= k < close && k != open :: !FenceAt(chars, k)
    ensures FirstPair(chars[start..hard], open - start, close - start)
  {
    hide FenceAt;
    var window := chars[start..hard];
    forall k: nat | k <= close - start
      ensures FenceAt(window, k) <==> k == open - start || k == close - start
    {
      FenceInWindow(chars, start, hard, k);
    }
    FirstFenceIs(window, 0, open - start);
    FirstFenceIs(window, open - start + 3, close - start);
  }

  /**
    The first window is cut after the first block. The next begins inside that block, takes the block's closing fence
    for an opening one, and is cut just after the opening fence of the second block, which would fit in it.
   */
  lemma AsciiBlockIsSplit()
    ensures Blocks(LONG_TEXT, 0) == [(700, 900), (1600, 1700)]
    ensures |Windows(LONG_TEXT, 0)| > 1 && Windows(LONG_TEXT, 0)[0] == (0, 900) && Windows(LONG_TEXT, 0)[1] == (750, 1603)
    ensures 750 <= 1600 && 1700 <= 750 + CHUNK_MAX && Splits(1603, 1600, 1700)
  {
    hide FenceAt, FenceCut, CutPoint, ByteLen, IsAscii;
    forall k
      ensures FenceAt(LONG_TEXT, k) <==> k == 700 || k == 897 || k == 1600 || k == 1697
    {
      LongTextFences(k);
    }
    LongTextWindow(0, 700, 897);
    LongTextWindow(750, 897, 1600);
    FirstFenceIs(LONG_TEXT, 0, 700);
    FirstFenceIs(LONG_TEXT, 703, 897);
    FirstFenceIs(LONG_TEXT, 900, 1600);
    FirstFenceIs(LONG_TEXT, 1603, 1697);
    assert FirstFence(LONG_TEXT, 1700).None?;
    assert Blocks(LONG_TEXT, 1700) == [];
    assert Blocks(LONG_TEXT, 900) == [(1600, 1700)];
  }

  lemma LongTextWindow(start: nat, open: nat, close: nat)
    requires start <= open && open + 3 <= close && start + CHUNK_TARGET < close + 3 <= start + CHUNK_MAX < 2600
    requires FenceAt(LONG_TEXT, open) && FenceAt(LONG_TEXT, close)
    requires forall k | start <= k < close && k != open :: !FenceAt(LONG_TEXT, k)
    ensures WindowEnd(LONG_TEXT, start) == close + 3
  {
    var target, hard := start + CHUNK_TARGET, start + CHUNK_MAX;
    PairInWindow(LONG_TEXT, start, hard, open, close);
    LongTextIsAscii(start, close);
    hide FenceAt, IsAscii, FirstPair, CutPoint, InLongFence;
    FenceSetsTheCut(LONG_TEXT, start, target, hard, open - start, close - start);
  }

  // ---------------------------------------------------------------------
  // What the chunks are
  // ---------------------------------------------------------------------

  /** The next window begins 150 characters before this one ends, and at least 651 after this one began. */
  ghost predicate Follows(w: Window, next: Window) {
    next.0 == w.1 - 150 && next.0 > w.0 + 650
  }

  /** The windows tile the text from the start to its end, consecutive ones sharing exactly 150 characters. */
  lemma {:induction false} WindowsOverlapExactly(chars: string, start: nat)
    requires start < |chars|
    ensures var ws := Windows(chars, start);
            && ws != [] && ws[0].0 == start && ws[|ws| - 1].1 == |chars|
            && forall i, j | 0 <= i && j == i + 1 && j < |ws| :: Follows(ws[i], ws[j])
    decreases |chars| - start
  {
    hide WindowEnd, Follows;
    var end := WindowEnd(chars, start);
    if end < |chars| {
      var rest := Windows(chars, end - CHUNK_OVERLAP);
      WindowsOverlapExactly(chars, end - CHUNK_OVERLAP);
      assert Windows(chars, start) == [(start, end)] + rest;
      hide Windows;
      StepFollows(start, end, rest[0]);
      FollowersExtend((start, end), rest);
    }
  }

  lemma StepFollows(start: nat, end: nat, next: Window)
    requires start + CHUNK_TARGET < end && next.0 == end - CHUNK_OVERLAP
    ensures Follows((start, end), next)
  {
  }

  lemma FollowersExtend(w: Window, rest: seq<Window>)
    requires rest != [] && Follows(w, rest[0])
    requires forall i, j | 0 <= i && j == i + 1 && j < |rest| :: Follows(rest[i], rest[j])
    ensures var ws := [w] + rest; forall i, j | 0 <= i && j == i + 1 && j < |ws| :: Follows(ws[i], ws[j])
  {
    hide Follows;
    var ws := [w] + rest;
    forall i, j | 0 <= i && j == i + 1 && j < |ws|
      ensures Follows(ws[i], ws[j])
    {
      if i > 0 {
        assert ws[i] == rest[i - 1] && ws[j] == rest[j - 1];
      }
    }
  }

  lemma {:induction false} FewWindows(chars: string, start: nat)
    requires start < |chars|
    ensures 651 * (|Windows(chars, start)| - 1) <= |chars| - 1 - start
    decreases |chars| - start
  {
    hide CutPoint;
    var end := WindowEnd(chars, start);
    if end < |chars| {
      FewWindows(chars, end - CHUNK_OVERLAP);
    }
  }

  lemma {:induction false} ChunksAreNamedSlices(chars: string, ws: seq<Window>, ix: nat)
    requires forall i | 0 <= i < |ws| :: ws[i].0 <= ws[i].1 <= |chars| && ws[i].1 <= ws[i].0 + CHUNK_MAX
    ensures |ChunksOf(chars, ws, ix)| <= |ws|
    ensures forall k | 0 <= k < |ChunksOf(chars, ws, ix)| :: IsNamedSlice(chars, ChunksOf(chars, ws, ix)[k], ix + k)
  {
    hide Texts.Blank;
    if ws != [] {
      if Blank(chars[ws[0].0..ws[0].1]) {
        ChunksAreNamedSlices(chars, ws[1..], ix);
      } else {
        ChunksAreNamedSlices(chars, ws[1..], ix + 1);
        var rest := ChunksOf(chars, ws[1..], ix + 1);
        forall k | 0 <= k < |rest| + 1
          ensures IsNamedSlice(chars, ChunksOf(chars, ws, ix)[k], ix + k)
        {
          assert k > 0 ==> IsNamedSlice(chars, rest[k - 1], ix + 1 + (k - 1));
        }
      }
    }
  }

  /** A chunk that carries its position and exactly the slice its offsets name. */
  ghost predicate IsNamedSlice(chars: string, c: Chunk, ix: nat) {
    && c.ix == ix && 0 <= c.charStart && 0 <= c.charLen <= 1200 && c.charStart + c.charLen <= |chars|
    && c.text == chars[c.charStart..c.charStart + c.charLen]
  }

  /** A window reaches the end of the text when at most 1,200 characters are left, and is cut past 800 otherwise. */
  lemma {:induction false} WindowsFollowTheSizes(chars: string, start: nat, k: nat)
    requires start < |chars| && k < |Windows(chars, start)|
    ensures var (from, to) := Windows(chars, start)[k];
            && from < |chars|
            && to == if from + 1200 >= |chars| then |chars| else CutPoint(chars, from, from + 800, from + 1200)
    decreases k
  {
    hide CutPoint;
    var end := WindowEnd(chars, start);
    if k > 0 {
      WindowsFollowTheSizes(chars, end - CHUNK_OVERLAP, k - 1);
    }
  }

  /** The first chunk is the first 400 characters, and the only one of a text that short. */
  lemma TheOpeningComesFirst(text: string)
    requires text != ""
    ensures var n := if |text| < 400 then |text| else 400;
            Chunked(text) != [] && Chunked(text)[0] == Chunk(0, 0, n, text[..n])
    ensures |text| <= 400 ==> |Chunked(text)| == 1
    ensures |text| > 400 ==> Chunked(text)[1..] == ChunksFrom(text, 0, 1)
  {
    hide Windows, ChunksOf;
  }

  /** At most len / 651 + 2 chunks, each the slice it names, at most 1,200 characters, in position order. */
  lemma ChunksAreBoundedSlices(text: string)
    ensures |Chunked(text)| <= |text| / 651 + 2
    ensures forall k | 0 <= k < |Chunked(text)| :: IsNamedSlice(text, Chunked(text)[k], k)
  {
    hide Windows, ChunksOf, IsNamedSlice;
    OpeningIsNamed(text);
    if |text| > OPENING_CHARS {
      WindowsAreInside(text, 0);
      FewWindows(text, 0);
      var ws := Windows(text, 0);
      ChunksAreNamedSlices(text, ws, 1);
      forall k | 0 < k < |Chunked(text)|
        ensures IsNamedSlice(text, Chunked(text)[k], k)
      {
        assert IsNamedSlice(text, ChunksOf(text, ws, 1)[k - 1], 1 + (k - 1));
      }
    }
  }

  lemma OpeningIsNamed(text: string)
    ensures IsNamedSlice(text, Opening(text), 0)
  {
  }

  ghost predicate Holds(c: Chunk, i: nat) {
    c.charStart <= i < c.charStart + c.charLen
  }

  lemma {:induction false} TrimOfNonBlank(s: string, i: nat)
    requires i < |s| && !IsWhite(s[i])
    ensures !Blank(s)
  {
    TrimStartKeeps(s, i);
    var t := TrimStart(s);
    TrimEndKeeps(t, |t| - (|s| - i));
  }

  lemma {:induction false} TrimStartKeeps(s: string, i: nat)
    requires i < |s| && !IsWhite(s[i])
    ensures |TrimStart(s)| >= |s| - i && TrimStart(s)[|TrimStart(s)| - (|s| - i)] == s[i]
  {
    if IsWhite(s[0]) {
      TrimStartKeeps(s[1..], i - 1);
    }
  }

  lemma {:induction false} TrimEndKeeps(s: string, i: nat)
    requires i < |s| && !IsWhite(s[i])
    ensures TrimEnd(s) != ""
  {
    if IsWhite(s[|s| - 1]) {
      TrimEndKeeps(s[..|s| - 1], i);
    }
  }

  lemma {:induction false} WindowHolds(chars: string, start: nat, i: nat) returns (k: nat)
    requires start <= i < |chars|
    ensures k < |Windows(chars, start)| && Windows(chars, start)[k].0 <= i < Windows(chars, start)[k].1
    decreases |chars| - start
  {
    hide CutPoint;
    var end := WindowEnd(chars, start);
    if i < end {
      k := 0;
    } else {
      k := WindowHolds(chars, end - CHUNK_OVERLAP, i);
      k := k + 1;
    }
  }

  lemma {:induction false} NonBlankWindowIsAChunk(chars: string, ws: seq<Window>, ix: nat, k: nat) returns (j: nat)
    requires forall i | 0 <= i < |ws| :: ws[i].0 <= ws[i].1 <= |chars|
    requires k < |ws| && !Blank(chars[ws[k].0..ws[k].1])
    ensures j < |ChunksOf(chars, ws, ix)|
    ensures ChunksOf(chars, ws, ix)[j].charStart == ws[k].0
    ensures ChunksOf(chars, ws, ix)[j].charLen == ws[k].1 - ws[k].0
  {
    hide Texts.Blank;
    if k == 0 {
      j := 0;
    } else if Blank(chars[ws[0].0..ws[0].1]) {
      j := NonBlankWindowIsAChunk(chars, ws[1..], ix, k - 1);
    } else {
      j := NonBlankWindowIsAChunk(chars, ws[1..], ix + 1, k - 1);
      j := j + 1;
    }
  }

  /** Every character that is not white space lies in some chunk. */
  lemma NothingButBlanksIsLost(text: string, i: nat)
    requires i < |text| && !IsWhite(text[i])
    ensures exists k :: 0 <= k < |Chunked(text)| && Holds(Chunked(text)[k], i)
  {
    hide Texts.Blank, Windows;
    if |text| <= OPENING_CHARS {
      assert Holds(Chunked(text)[0], i);
    } else {
      WindowsAreInside(text, 0);
      var ws := Windows(text, 0);
      var w := WindowHolds(text, 0, i);
      TrimOfNonBlank(text[ws[w].0..ws[w].1], i - ws[w].0);
      var j := NonBlankWindowIsAChunk(text, ws, 1, w);
      assert Holds(Chunked(text)[j + 1], i);
    }
  }
}
