/** Normalising text, splitting it into words and words into vocabulary pieces, and reading it back from the ids. */
module WordPiece {
  import opened Wrappers

  // ---------------------------------------------------------------------
  // Words
  // ---------------------------------------------------------------------

  /** The Unicode tables the tokenizer asks: general categories, canonical decomposition and lower case. */
  datatype Categories = Categories(
    spaceSeparator: char -> bool,
    punctuation: char -> bool,
    other: char -> bool,
    nonspacingMark: char -> bool,
    decompose: string -> string,
    lower: string -> string)

  predicate IsWhitespace(u: Categories, c: char) {
    c == ' ' || c == '\t' || c == '\n' || c == '\r' || u.spaceSeparator(c)
  }

  predicate IsPunctuation(u: Categories, c: char) {
    || '!' <= c <= '/' || ':' <= c <= '@' || '[' <= c <= '`' || '{' <= c <= '~'
    || u.punctuation(c)
  }

  /** A character that is part of a longer word. */
  predicate IsPlain(u: Categories, c: char) {
    !IsWhitespace(u, c) && !IsPunctuation(u, c)
  }

  /** The finished words and the word being read. */
  datatype Scanned = Scanned(words: seq<string>, current: string) {
    function Closed(): seq<string> {
      if current == "" then words else words + [current]
    }
  }

  function ScanChar(u: Categories, s: Scanned, c: char): Scanned {
    if IsWhitespace(u, c) then Scanned(s.Closed(), "")
    else if IsPunctuation(u, c) then Scanned(s.Closed() + [[c]], "")
    else Scanned(s.words, s.current + [c])
  }

  function Scan(u: Categories, text: string): Scanned {
    if text == "" then Scanned([], "") else ScanChar(u, Scan(u, text[..|text| - 1]), text[|text| - 1])
  }

  function Words(u: Categories, text: string): seq<string> {
    Scan(u, text).Closed()
  }

  method PreTokenize(u: Categories, text: string) returns (words: seq<string>)
    ensures words == Words(u, text)
  {
    words := [];
    var current := "";
    for i := 0 to |text|
      invariant Scanned(words, current) == Scan(u, text[..i])
    {
      var c := text[i];
      assert text[..i + 1][..i] == text[..i];
      if IsWhitespace(u, c) {
        if current != "" {
          words, current := words + [current], "";
        }
      } else if IsPunctuation(u, c) {
        if current != "" {
          words, current := words + [current], "";
        }
        words := words + [[c]];
      } else {
        current := current + [c];
      }
    }
    assert text[..|text|] == text;
    if current != "" {
      words := words + [current];
    }
  }

  /** Text with its whitespace removed. */
  function Squeeze(u: Categories, text: string): string {
    if text == "" then ""
    else
      var before := Squeeze(u, text[..|text| - 1]);
      if IsWhitespace(u, text[|text| - 1]) then before else before + [text[|text| - 1]]
  }

  function Concat(words: seq<string>): string {
    if words == [] then "" else Concat(words[..|words| - 1]) + words[|words| - 1]
  }

  /** A word is one punctuation character, or a run of characters that are neither punctuation nor whitespace. */
  ghost predicate IsWord(u: Categories, w: string) {
    || (|w| == 1 && !IsWhitespace(u, w[0]) && IsPunctuation(u, w[0]))
    || (w != "" && forall i | 0 <= i < |w| :: IsPlain(u, w[i]))
  }

  ghost predicate GoodScan(u: Categories, s: Scanned) {
    && (forall k | 0 <= k < |s.words| :: IsWord(u, s.words[k]))
    && forall i | 0 <= i < |s.current| :: IsPlain(u, s.current[i])
  }

  lemma ClosedConcat(s: Scanned)
    ensures Concat(s.Closed()) == Concat(s.words) + s.current
  {
    if s.current != "" {
      assert s.Closed()[..|s.words|] == s.words;
    }
  }

  lemma ClosedIsGood(u: Categories, s: Scanned)
    requires GoodScan(u, s)
    ensures forall k | 0 <= k < |s.Closed()| :: IsWord(u, s.Closed()[k])
  {
    hide IsPlain;
  }

  lemma AppendConcat(words: seq<string>, w: string)
    ensures Concat(words + [w]) == Concat(words) + w
  {
    assert (words + [w])[..|words|] == words;
  }

  lemma ScanCharIsGood(u: Categories, s: Scanned, c: char)
    requires GoodScan(u, s)
    ensures GoodScan(u, ScanChar(u, s, c))
  {
    ClosedIsGood(u, s);
    hide IsWhitespace, IsPunctuation;
    var t := ScanChar(u, s, c);
    forall k | 0 <= k < |t.words|
      ensures IsWord(u, t.words[k])
    {
    }
  }

  lemma ScanCharAddsTheCharacter(u: Categories, s: Scanned, c: char)
    ensures var t := ScanChar(u, s, c);
            Concat(t.words) + t.current == Concat(s.words) + s.current + if IsWhitespace(u, c) then "" else [c]
  {
    ClosedConcat(s);
    AppendConcat(s.Closed(), [c]);
    hide IsWhitespace, IsPunctuation, Concat;
  }

  lemma {:induction false} ScanIsGood(u: Categories, text: string)
    ensures GoodScan(u, Scan(u, text))
    ensures Concat(Scan(u, text).words) + Scan(u, text).current == Squeeze(u, text)
  {
    if text == "" {
    } else {
      hide IsWhitespace, GoodScan, ScanChar;
      var s := Scan(u, text[..|text| - 1]);
      ScanIsGood(u, text[..|text| - 1]);
      ScanCharIsGood(u, s, text[|text| - 1]);
      ScanCharAddsTheCharacter(u, s, text[|text| - 1]);
    }
  }

  /** The words are the text without its whitespace, cut into single punctuation characters and plain runs. */
  lemma {:induction false} WordsAreTheTextSqueezed(u: Categories, text: string)
    ensures Concat(Words(u, text)) == Squeeze(u, text)
    ensures forall k | 0 <= k < |Words(u, text)| :: IsWord(u, Words(u, text)[k])
  {
    ScanIsGood(u, text);
    ClosedConcat(Scan(u, text));
  }

  lemma {:induction false} ScanAfterBreak(u: Categories, a: string, c: char, b: string)
    requires !IsPlain(u, c)
    ensures var before := Scan(u, a + [c]); var after := Scan(u, b);
            Scan(u, a + [c] + b) == Scanned(before.words + after.words, after.current) && before.current == ""
  {
    hide IsWhitespace, IsPunctuation;
    var text := a + [c] + b;
    assert (a + [c])[..|a|] == a;
    if b == "" {
      assert text == a + [c];
    } else {
      assert text[..|text| - 1] == a + [c] + b[..|b| - 1];
      ScanAfterBreak(u, a, c, b[..|b| - 1]);
    }
  }

  lemma {:induction false} ScanOfPlain(u: Categories, w: string)
    requires forall i | 0 <= i < |w| :: IsPlain(u, w[i])
    ensures Scan(u, w) == Scanned([], w)
  {
    hide IsWhitespace, IsPunctuation;
    if w != "" {
      var front, last := w[..|w| - 1], w[|w| - 1];
      ScanOfPlain(u, front);
      assert IsPlain(u, last);
      assert ScanChar(u, Scanned([], front), last) == Scanned([], front + [last]);
      assert w == front + [last];
    }
  }

  /**
    The three equations that say where words begin and end: whitespace separates, punctuation separates and stays,
    and nothing else does.
   */
  lemma WordsAreCutAtBreaksOnly(u: Categories, a: string, c: char, b: string)
    ensures IsWhitespace(u, c) ==> Words(u, a + [c] + b) == Words(u, a) + Words(u, b)
    ensures !IsWhitespace(u, c) && IsPunctuation(u, c) ==> Words(u, a + [c] + b) == Words(u, a) + [[c]] + Words(u, b)
    ensures b != "" && (forall i | 0 <= i < |b| :: IsPlain(u, b[i])) ==> Words(u, b) == [b]
  {
    assert (a + [c])[..|a|] == a;
    if !IsPlain(u, c) {
      ScanAfterBreak(u, a, c, b);
      assert Scan(u, a + [c]) == ScanChar(u, Scan(u, a), c);
    }
    if forall i | 0 <= i < |b| :: IsPlain(u, b[i]) {
      ScanOfPlain(u, b);
    }
  }

  // ---------------------------------------------------------------------
  // Normalising
  // ---------------------------------------------------------------------

  const MAX_TOKENS := 512

  datatype Normalizer = Normalizer(cleanText: bool, handleChinese: bool, stripAccents: bool, lowercase: bool)

  predicate IsControl(u: Categories, c: char) {
    c != '\t' && c != '\n' && c != '\r' && u.other(c)
  }

  predicate IsCjk(c: char) {
    || '\U{4E00}' <= c <= '\U{9FFF}' || '\U{3400}' <= c <= '\U{4DBF}' || '\U{20000}' <= c <= '\U{2A6DF}'
    || '\U{2A700}' <= c <= '\U{2B73F}' || '\U{2B740}' <= c <= '\U{2B81F}' || '\U{2B820}' <= c <= '\U{2CEAF}'
    || '\U{F900}' <= c <= '\U{FAFF}' || '\U{2F800}' <= c <= '\U{2FA1F}'
  }

  predicate IsDropped(n: Normalizer, u: Categories, c: char) {
    n.cleanText && (c == '\0' || c == '\U{FFFD}' || IsControl(u, c))
  }

  function CleanChar(n: Normalizer, u: Categories, c: char): string {
    if IsDropped(n, u, c) then ""
    else if n.cleanText && IsWhitespace(u, c) then " "
    else if n.handleChinese && IsCjk(c) then [' ', c, ' ']
    else [c]
  }

  function Cleaned(n: Normalizer, u: Categories, text: string): string {
    if text == "" then "" else Cleaned(n, u, text[..|text| - 1]) + CleanChar(n, u, text[|text| - 1])
  }

  function WithoutMarks(u: Categories, text: string): string {
    if text == "" then ""
    else WithoutMarks(u, text[..|text| - 1]) + (if u.nonspacingMark(text[|text| - 1]) then "" else [text[|text| - 1]])
  }

  function Normalized(n: Normalizer, u: Categories, text: string): string {
    var cleaned := Cleaned(n, u, text);
    var stripped := if n.stripAccents then WithoutMarks(u, u.decompose(cleaned)) else cleaned;
    if n.lowercase then u.lower(stripped) else stripped
  }

  method Normalize(n: Normalizer, u: Categories, text: string) returns (s: string)
    ensures s == Normalized(n, u, text)
  {
    s := "";
    for i := 0 to |text|
      invariant s == Cleaned(n, u, text[..i])
    {
      var c := text[i];
      assert text[..i + 1][..i] == text[..i];
      if n.cleanText {
        if c == '\0' || c == '\U{FFFD}' || IsControl(u, c) {
          continue;
        }
        if IsWhitespace(u, c) {
          s := s + " ";
          continue;
        }
      }
      if n.handleChinese && IsCjk(c) {
        s := s + [' ', c, ' '];
        continue;
      }
      s := s + [c];
    }
    assert text[..|text|] == text;
    if n.stripAccents {
      s := WithoutMarks(u, u.decompose(s));
    }
    if n.lowercase {
      s := u.lower(s);
    }
  }

  /** A text without the characters that cleaning drops. */
  function Undropped(n: Normalizer, u: Categories, text: string): string {
    if text == "" then ""
    else
      var before := Undropped(n, u, text[..|text| - 1]);
      if IsDropped(n, u, text[|text| - 1]) then before else before + [text[|text| - 1]]
  }

  lemma {:induction false} SqueezeConcat(u: Categories, a: string, b: string)
    ensures Squeeze(u, a + b) == Squeeze(u, a) + Squeeze(u, b)
  {
    hide IsWhitespace;
    if b == "" {
      assert a + b == a;
    } else {
      assert (a + b)[..|a + b| - 1] == a + b[..|b| - 1];
      SqueezeConcat(u, a, b[..|b| - 1]);
    }
  }

  lemma SqueezedChar(n: Normalizer, u: Categories, c: char)
    ensures Squeeze(u, CleanChar(n, u, c)) == if IsDropped(n, u, c) || IsWhitespace(u, c) then "" else [c]
  {
    hide IsDropped, IsCjk;
    SqueezedOne(u, c);
    SqueezedOne(u, ' ');
    SqueezeConcat(u, " ", [c]);
    SqueezeConcat(u, " " + [c], " ");
    assert [' ', c, ' '] == " " + [c] + " ";
  }

  lemma SqueezedOne(u: Categories, c: char)
    ensures Squeeze(u, [c]) == if IsWhitespace(u, c) then "" else [c]
  {
    assert [c][..0] == "";
  }

  /** Cleaning and padding move nothing but whitespace: what is not dropped and not whitespace stays, in order. */
  lemma {:induction false} CleaningMovesOnlyWhitespace(n: Normalizer, u: Categories, text: string)
    ensures Squeeze(u, Cleaned(n, u, text)) == Squeeze(u, Undropped(n, u, text))
  {
    hide IsWhitespace, IsDropped, CleanChar;
    if text != "" {
      var front, c := text[..|text| - 1], text[|text| - 1];
      CleaningMovesOnlyWhitespace(n, u, front);
      SqueezeConcat(u, Cleaned(n, u, front), CleanChar(n, u, c));
      SqueezedChar(n, u, c);
      assert (Undropped(n, u, front) + [c])[..|Undropped(n, u, front)|] == Undropped(n, u, front);
    }
  }

  lemma {:induction false} CleanedConcat(n: Normalizer, u: Categories, a: string, b: string)
    ensures Cleaned(n, u, a + b) == Cleaned(n, u, a) + Cleaned(n, u, b)
  {
    hide CleanChar;
    if b == "" {
      assert a + b == a;
    } else {
      assert (a + b)[..|a + b| - 1] == a + b[..|b| - 1];
      CleanedConcat(n, u, a, b[..|b| - 1]);
    }
  }

  /** The blocks that are padded, by code point. */
  const CJK_BLOCKS: seq<(int, int)> :=
    [(0x4E00, 0x9FFF), (0x3400, 0x4DBF), (0x20000, 0x2A6DF), (0x2A700, 0x2B73F),
     (0x2B740, 0x2B81F), (0x2B820, 0x2CEAF), (0xF900, 0xFAFF), (0x2F800, 0x2FA1F)]

  ghost predicate InBlock(c: char, k: int) {
    0 <= k < |CJK_BLOCKS| && CJK_BLOCKS[k].0 <= c as int <= CJK_BLOCKS[k].1
  }

  lemma {:induction false} EachCharacterIsCleanedAlone(n: Normalizer, u: Categories, a: string, c: char, b: string)
    ensures Cleaned(n, u, a + [c] + b) == Cleaned(n, u, a) + CleanChar(n, u, c) + Cleaned(n, u, b)
  {
    hide CleanChar;
    CleanedConcat(n, u, a + [c], b);
    assert (a + [c])[..|a|] == a;
  }

  /**
    What cleaning makes of a character: control characters go, white space becomes a space, and a character of a
    padded block gets a space on either side.
   */
  lemma CleanedCharacter(n: Normalizer, u: Categories, c: char)
    ensures var control := u.other(c) && c != '\t' && c != '\n' && c != '\r';
            var white := c == ' ' || c == '\t' || c == '\n' || c == '\r' || u.spaceSeparator(c);
            var padded := exists k :: InBlock(c, k);
            CleanChar(n, u, c) == if n.cleanText && (c as int == 0 || c as int == 0xFFFD || control) then ""
                                  else if n.cleanText && white then [' ']
                                  else if n.handleChinese && padded then [' ', c, ' ']
                                  else [c]
  {
    CjkIsInABlock(c);
    hide IsCjk, InBlock;
  }

  lemma CjkIsInABlock(c: char)
    ensures IsCjk(c) <==> exists k :: InBlock(c, k)
  {
    assert IsCjk(c) ==> InBlock(c, 0) || InBlock(c, 1) || InBlock(c, 2) || InBlock(c, 3)
                        || InBlock(c, 4) || InBlock(c, 5) || InBlock(c, 6) || InBlock(c, 7);
  }

  /** In ASCII a character is punctuation when it is visible and neither letter nor digit; beyond, as Unicode says. */
  lemma PunctuationOfAscii(u: Categories, c: char)
    ensures c as int >= 0x80 ==> (IsPunctuation(u, c) <==> u.punctuation(c))
    ensures c as int < 0x80 && !u.punctuation(c) ==>
              (IsPunctuation(u, c) <==>
                 ' ' < c < '\U{7F}' && !('0' <= c <= '9') && !('a' <= c <= 'z') && !('A' <= c <= 'Z'))
    ensures u.punctuation(c) ==> IsPunctuation(u, c)
  {
  }

  /** Stripping takes out exactly the nonspacing marks. */
  lemma {:induction false} EachMarkIsStripped(u: Categories, a: string, c: char, b: string)
    ensures WithoutMarks(u, a + [c] + b) ==
            WithoutMarks(u, a) + (if u.nonspacingMark(c) then "" else [c]) + WithoutMarks(u, b)
    ensures WithoutMarks(u, "") == ""
  {
    if b == "" {
      assert (a + [c] + b)[..|a|] == a;
    } else {
      var front := b[..|b| - 1];
      assert (a + [c] + b)[..|a + [c] + b| - 1] == a + [c] + front;
      EachMarkIsStripped(u, a, c, front);
    }
  }

  /** The text before its character number 512 times the median token length. */
  function Truncated(text: string, medianTokenLen: nat): string {
    if MAX_TOKENS * medianTokenLen < |text| then text[..MAX_TOKENS * medianTokenLen] else text
  }

  // ---------------------------------------------------------------------
  // Pieces
  // ---------------------------------------------------------------------

  datatype Spec = Spec(
    vocab: map<string, nat>,
    unknown: Option<nat>,
    prefix: string,
    maxWordChars: nat,
    normalizer: Normalizer,
    medianTokenLen: nat)

  /** What is cut into words. */
  function Prepared(spec: Spec, u: Categories, text: string): string {
    Normalized(spec.normalizer, u, Truncated(text, spec.medianTokenLen))
  }

  /** Only the first 512 times the median token length characters are looked at, in the reference's order of steps. */
  lemma PreparedIsACleanedPrefix(spec: Spec, u: Categories, text: string) returns (cut: string)
    ensures cut <= text && |cut| == (if 512 * spec.medianTokenLen < |text| then 512 * spec.medianTokenLen else |text|)
    ensures var n := spec.normalizer;
            var cleaned := Cleaned(n, u, cut);
            var stripped := if n.stripAccents then WithoutMarks(u, u.decompose(cleaned)) else cleaned;
            Prepared(spec, u, text) == if n.lowercase then u.lower(stripped) else stripped
  {
    cut := Truncated(text, spec.medianTokenLen);
  }

  /** What the vocabulary is asked for a stretch of a word: continuations carry the prefix. */
  function Key(spec: Spec, word: string, start: nat, end: nat): string
    requires start <= end <= |word|
  {
    (if start > 0 then spec.prefix else "") + word[start..end]
  }

  /** The end of the longest vocabulary match that starts at a position and ends no later than `end`. */
  function LongestEnd(spec: Spec, word: string, start: nat, end: nat): (r: Option<nat>)
    requires start <= end <= |word|
    ensures r.Some? ==> start < r.value <= end && Key(spec, word, start, r.value) in spec.vocab
                        && forall e | r.value < e <= end :: Key(spec, word, start, e) !in spec.vocab
    ensures r.None? ==> forall e | start < e <= end :: Key(spec, word, start, e) !in spec.vocab
    decreases end
  {
    if end == start then None
    else if Key(spec, word, start, end) in spec.vocab then Some(end)
    else LongestEnd(spec, word, start, end - 1)
  }

  function PiecesFrom(spec: Spec, word: string, start: nat): Option<seq<nat>>
    requires start <= |word|
    decreases |word| - start
  {
    if start == |word| then Some([])
    else
      var end := LongestEnd(spec, word, start, |word|);
      if end.None? then None
      else
        var rest := PiecesFrom(spec, word, end.value);
        if rest.None? then None
        else Some([spec.vocab[Key(spec, word, start, end.value)]] + rest.value)
  }

  function UnknownIds(spec: Spec): seq<nat> {
    if spec.unknown.Some? then [spec.unknown.value] else []
  }

  predicate Known(spec: Spec, word: string) {
    |word| <= spec.maxWordChars && PiecesFrom(spec, word, 0).Some?
  }

  function WordIds(spec: Spec, word: string): seq<nat> {
    if Known(spec, word) then PiecesFrom(spec, word, 0).value else UnknownIds(spec)
  }

  /** Greedy longest-match-first over one word; the ids are appended to those of the words before. */
  method Wordpiece(spec: Spec, word: string, before: seq<nat>) returns (out: seq<nat>)
    ensures out == before + WordIds(spec, word)
  {
    out := before;
    if |word| > spec.maxWordChars {
      return out + UnknownIds(spec);
    }
    var pieces: seq<nat> := [];
    var start := 0;
    while start < |word|
      invariant start <= |word|
      invariant PiecesFrom(spec, word, 0).Some? <==> PiecesFrom(spec, word, start).Some?
      invariant PiecesFrom(spec, word, start).Some? ==>
                  PiecesFrom(spec, word, 0).value == pieces + PiecesFrom(spec, word, start).value
    {
      hide Key;
      var end := |word|;
      var found: Option<nat> := None;
      while start < end
        invariant start <= end <= |word| && found.None?
        invariant LongestEnd(spec, word, start, end) == LongestEnd(spec, word, start, |word|)
      {
        var sub := Key(spec, word, start, end);
        if sub in spec.vocab {
          found := Some(spec.vocab[sub]);
          break;
        }
        end := end - 1;
      }
      if found.None? {
        return out + UnknownIds(spec);
      }
      pieces := pieces + [found.value];
      start := end;
    }
    out := out + pieces;
  }

  /** Cut positions of a word, every stretch between them the longest match where it starts. */
  ghost predicate Greedy(spec: Spec, word: string, start: nat, cuts: seq<nat>) {
    && cuts != [] && cuts[0] == start && cuts[|cuts| - 1] == |word|
    && forall i, j | 0 <= i && j == i + 1 && j < |cuts| :: IsLongest(spec, word, cuts[i], cuts[j])
  }

  ghost predicate IsLongest(spec: Spec, word: string, start: nat, end: nat) {
    && start < end <= |word| && Key(spec, word, start, end) in spec.vocab
    && forall e | end < e <= |word| :: Key(spec, word, start, e) !in spec.vocab
  }

  ghost predicate Names(spec: Spec, k: string, id: nat) {
    k in spec.vocab && spec.vocab[k] == id
  }

  /** The id of the piece between two cuts. */
  ghost predicate PieceId(spec: Spec, word: string, start: nat, end: nat, id: nat) {
    start <= end <= |word| && Names(spec, Key(spec, word, start, end), id)
  }

  ghost predicate IdsOf(spec: Spec, word: string, cuts: seq<nat>, ids: seq<nat>) {
    && |cuts| == |ids| + 1
    && forall i, j | 0 <= i && j == i + 1 && j < |cuts| :: PieceId(spec, word, cuts[i], cuts[j], ids[i])
  }

  /** One turn of the greedy loop: the longest match, then the pieces of what is left. */
  lemma PiecesStep(spec: Spec, word: string, start: nat) returns (end: nat, id: nat, rest: seq<nat>)
    requires start < |word| && PiecesFrom(spec, word, start).Some?
    ensures IsLongest(spec, word, start, end) && PieceId(spec, word, start, end, id)
    ensures PiecesFrom(spec, word, end) == Some(rest) && PiecesFrom(spec, word, start) == Some([id] + rest)
  {
    hide Key;
    end := LongestEnd(spec, word, start, |word|).value;
    id := spec.vocab[Key(spec, word, start, end)];
    rest := PiecesFrom(spec, word, end).value;
  }

  lemma {:induction false} PiecesAreGreedy(spec: Spec, word: string, start: nat) returns (cuts: seq<nat>)
    requires start <= |word| && PiecesFrom(spec, word, start).Some?
    ensures Greedy(spec, word, start, cuts) && IdsOf(spec, word, cuts, PiecesFrom(spec, word, start).value)
    decreases |word| - start
  {
    hide PieceId;
    if start == |word| {
      cuts := [start];
    } else {
      var end, id, tail := PiecesStep(spec, word, start);
      hide PiecesFrom;
      var rest := PiecesAreGreedy(spec, word, end);
      cuts := [start] + rest;
      var ids := [id] + tail;
      hide IsLongest;
      forall i, j | 0 <= i && j == i + 1 && j < |cuts|
        ensures IsLongest(spec, word, cuts[i], cuts[j]) && PieceId(spec, word, cuts[i], cuts[j], ids[i])
      {
        if i > 0 {
          assert cuts[i] == rest[i - 1] && cuts[j] == rest[j - 1] && ids[i] == tail[i - 1];
        }
      }
    }
  }

  lemma {:induction false} GreedyCutsAreFound(spec: Spec, word: string, start: nat, cuts: seq<nat>)
    requires start <= |word| && Greedy(spec, word, start, cuts)
    ensures PiecesFrom(spec, word, start).Some?
    decreases |cuts|
  {
    hide Key;
    if |cuts| > 1 {
      assert IsLongest(spec, word, cuts[0], cuts[1]);
      var end := LongestEnd(spec, word, start, |word|);
      assert end == Some(cuts[1]);
      var rest := cuts[1..];
      forall i, j | 0 <= i && j == i + 1 && j < |rest|
        ensures IsLongest(spec, word, rest[i], rest[j])
      {
        assert IsLongest(spec, word, cuts[i + 1], cuts[j + 1]);
      }
      GreedyCutsAreFound(spec, word, cuts[1], rest);
    }
  }

  /** A word short enough is known exactly when taking the longest match again and again reaches its end. */
  lemma KnownIffGreedyReachesTheEnd(spec: Spec, word: string)
    ensures Known(spec, word) <==>
              |word| <= spec.maxWordChars && exists cuts: seq<nat> :: Greedy(spec, word, 0, cuts)
  {
    if Known(spec, word) {
      var cuts := PiecesAreGreedy(spec, word, 0);
    } else if cuts: seq<nat> :| |word| <= spec.maxWordChars && Greedy(spec, word, 0, cuts) {
      GreedyCutsAreFound(spec, word, 0, cuts);
    }
  }

  // ---------------------------------------------------------------------
  // Reading ids back
  // ---------------------------------------------------------------------

  ghost predicate DistinctIds(spec: Spec) {
    forall k, l | k in spec.vocab && l in spec.vocab && spec.vocab[k] == spec.vocab[l] :: k == l
  }

  /** The vocabulary entry an id stands for. */
  ghost function Entry(spec: Spec, id: nat): (k: string)
    ensures DistinctIds(spec) ==> forall l | Names(spec, l, id) :: k == l
  {
    if exists l :: Names(spec, l, id) then
      var l :| Names(spec, l, id);
      l
    else ""
  }

  /** The entry without the continuation prefix. */
  ghost function Stripped(spec: Spec, id: nat): string {
    var k := Entry(spec, id);
    if spec.prefix <= k then k[|spec.prefix|..] else k
  }

  ghost function Continuation(spec: Spec, ids: seq<nat>): string {
    if ids == [] then "" else Stripped(spec, ids[0]) + Continuation(spec, ids[1..])
  }

  /** What the ids of one word spell: the first entry as it is, the others without their prefix. */
  ghost function SpellWord(spec: Spec, ids: seq<nat>): string {
    if ids == [] then "" else Entry(spec, ids[0]) + Continuation(spec, ids[1..])
  }

  lemma StrippedKey(spec: Spec, word: string, start: nat, end: nat, id: nat)
    requires DistinctIds(spec) && 0 < start <= end <= |word| && Names(spec, Key(spec, word, start, end), id)
    ensures Stripped(spec, id) == word[start..end]
  {
    var k := Key(spec, word, start, end);
    assert Entry(spec, id) == k;
    hide Entry, DistinctIds, Names;
    assert k[|spec.prefix|..] == word[start..end];
  }

  lemma ContinuationStep(spec: Spec, id: nat, rest: seq<nat>)
    ensures Continuation(spec, [id] + rest) == Stripped(spec, id) + Continuation(spec, rest)
  {
    hide Stripped;
    assert ([id] + rest)[1..] == rest;
  }

  lemma {:induction false} ContinuationSpells(spec: Spec, word: string, start: nat)
    requires DistinctIds(spec) && 0 < start <= |word| && PiecesFrom(spec, word, start).Some?
    ensures Continuation(spec, PiecesFrom(spec, word, start).value) == word[start..]
    decreases |word| - start
  {
    if start < |word| {
      hide Stripped, Continuation, DistinctIds;
      var end, id, rest := PiecesStep(spec, word, start);
      hide PiecesFrom;
      ContinuationSpells(spec, word, end);
      StrippedKey(spec, word, start, end, id);
      ContinuationStep(spec, id, rest);
      hide *;
      assert word[start..end] + word[end..] == word[start..];
    } else {
      hide Stripped;
    }
  }

  /** The ids of a known word concatenate back to it; an unknown one yields the unknown id, or none when there is none. */
  lemma WordIsSpelledOrUnknown(spec: Spec, word: string)
    requires DistinctIds(spec)
    ensures Known(spec, word) ==> SpellWord(spec, WordIds(spec, word)) == word
    ensures !Known(spec, word) && spec.unknown == None ==> WordIds(spec, word) == []
    ensures !Known(spec, word) ==> forall id :: spec.unknown == Some(id) ==> WordIds(spec, word) == [id]
  {
    if Known(spec, word) && word != "" {
      var end, id, rest := PiecesStep(spec, word, 0);
      assert Key(spec, word, 0, end) == word[..end];
      assert Entry(spec, id) == word[..end];
      ContinuationSpells(spec, word, end);
      hide Entry, DistinctIds, PiecesFrom;
      assert ([id] + rest)[1..] == rest;
      assert word[..end] + word[end..] == word;
    }
  }

  /** No two known words share their ids. */
  lemma IdsDetermineTheWord(spec: Spec, v: string, w: string)
    requires DistinctIds(spec) && Known(spec, v) && Known(spec, w) && WordIds(spec, v) == WordIds(spec, w)
    ensures v == w
  {
    WordIsSpelledOrUnknown(spec, v);
    WordIsSpelledOrUnknown(spec, w);
  }

  // ---------------------------------------------------------------------
  // Whole texts
  // ---------------------------------------------------------------------

  function AllIds(spec: Spec, words: seq<string>): seq<nat> {
    if words == [] then [] else AllIds(spec, words[..|words| - 1]) + WordIds(spec, words[|words| - 1])
  }

  method Encode(spec: Spec, u: Categories, text: string) returns (ids: seq<nat>)
    ensures ids == AllIds(spec, Words(u, Prepared(spec, u, text)))
  {
    ids := [];
    var normalized := Normalize(spec.normalizer, u, Truncated(text, spec.medianTokenLen));
    var words := PreTokenize(u, normalized);
    for i := 0 to |words|
      invariant ids == AllIds(spec, words[..i])
    {
      assert words[..i + 1][..i] == words[..i];
      ids := Wordpiece(spec, words[i], ids);
    }
    assert words[..|words|] == words;
  }

  ghost predicate NoUnknownWord(spec: Spec, words: seq<string>) {
    forall k | 0 <= k < |words| :: Known(spec, words[k])
  }

  ghost function SpellWords(spec: Spec, words: seq<string>): string {
    if words == [] then ""
    else SpellWords(spec, words[..|words| - 1]) + SpellWord(spec, WordIds(spec, words[|words| - 1]))
  }

  lemma {:induction false} KnownWordsAreSpelled(spec: Spec, words: seq<string>)
    requires DistinctIds(spec) && NoUnknownWord(spec, words)
    ensures SpellWords(spec, words) == Concat(words)
  {
    hide Known, DistinctIds, SpellWord, WordIds;
    if words != [] {
      KnownWordsAreSpelled(spec, words[..|words| - 1]);
      WordIsSpelledOrUnknown(spec, words[|words| - 1]);
    }
  }

  /** In text with no unknown word, the ids of the words spell the normalised text with its whitespace removed. */
  lemma EncodingSpellsTheText(spec: Spec, u: Categories, normalized: string)
    requires DistinctIds(spec) && NoUnknownWord(spec, Words(u, normalized))
    ensures SpellWords(spec, Words(u, normalized)) == Squeeze(u, normalized)
  {
    WordsAreTheTextSqueezed(u, normalized);
    KnownWordsAreSpelled(spec, Words(u, normalized));
  }

  /** Ids read back with no knowledge of where words began: every entry that carries the prefix loses it. */
  ghost function Decode(spec: Spec, ids: seq<nat>): string {
    if ids == [] then "" else Decode(spec, ids[..|ids| - 1]) + Stripped(spec, ids[|ids| - 1])
  }

  /** A prefix like `##`: no word can begin with it, since punctuation stands alone. */
  predicate NeverBeginsAWord(u: Categories, prefix: string) {
    prefix == "" || (|prefix| >= 2 && IsPunctuation(u, prefix[0]))
  }

  /** The reference's prefix is such a one. */
  lemma HashesNeverBeginAWord(u: Categories)
    ensures NeverBeginsAWord(u, "##") && NeverBeginsAWord(u, "")
  {
  }

  lemma {:induction false} DecodeConcat(spec: Spec, a: seq<nat>, b: seq<nat>)
    ensures Decode(spec, a + b) == Decode(spec, a) + Decode(spec, b)
  {
    hide Stripped;
    if b == [] {
      assert a + b == a;
    } else {
      DecodeConcat(spec, a, b[..|b| - 1]);
      assert (a + b)[..|a + b| - 1] == a + b[..|b| - 1];
    }
  }

  lemma {:induction false} DecodeIsContinuation(spec: Spec, ids: seq<nat>)
    ensures Decode(spec, ids) == Continuation(spec, ids)
  {
    hide Stripped;
    if ids != [] {
      DecodeIsContinuation(spec, ids[1..]);
      DecodeConcat(spec, ids[..1], ids[1..]);
      assert ids[..1] + ids[1..] == ids;
      assert Decode(spec, ids[..1][..0]) == "";
    }
  }

  lemma DecodedWord(spec: Spec, u: Categories, word: string)
    requires DistinctIds(spec) && Known(spec, word) && IsWord(u, word) && NeverBeginsAWord(u, spec.prefix)
    ensures Decode(spec, WordIds(spec, word)) == word
  {
    WordIsSpelledOrUnknown(spec, word);
    var ids := WordIds(spec, word);
    DecodeIsContinuation(spec, ids);
    var end := LongestEnd(spec, word, 0, |word|).value;
    assert Key(spec, word, 0, end) == word[..end];
    assert Names(spec, word[..end], ids[0]);
    FirstPieceKeepsItsText(spec, u, word, end);
  }

  lemma FirstPieceKeepsItsText(spec: Spec, u: Categories, word: string, end: nat)
    requires IsWord(u, word) && NeverBeginsAWord(u, spec.prefix) && end <= |word|
    ensures spec.prefix <= word[..end] ==> word[..end][|spec.prefix|..] == word[..end]
  {
    if |spec.prefix| >= 2 && |spec.prefix| <= end {
      assert word[..end][0] == word[0];
      assert !(|word| == 1);
      assert IsPlain(u, word[0]);
    }
  }

  lemma {:induction false} DecodedWords(spec: Spec, u: Categories, words: seq<string>)
    requires DistinctIds(spec) && NoUnknownWord(spec, words) && NeverBeginsAWord(u, spec.prefix)
    requires forall k | 0 <= k < |words| :: IsWord(u, words[k])
    ensures Decode(spec, AllIds(spec, words)) == Concat(words)
  {
    hide Known, DistinctIds, WordIds, IsWord, NeverBeginsAWord, Stripped;
    if words != [] {
      DecodedWords(spec, u, words[..|words| - 1]);
      DecodedWord(spec, u, words[|words| - 1]);
      DecodeConcat(spec, AllIds(spec, words[..|words| - 1]), WordIds(spec, words[|words| - 1]));
    }
  }

  /**
    With a continuation prefix no word can begin with, the flat list of ids alone gives back the normalised text with
    its whitespace removed, whenever no word is unknown.
   */
  lemma EncodeThenDecode(spec: Spec, u: Categories, normalized: string)
    requires DistinctIds(spec) && NoUnknownWord(spec, Words(u, normalized)) && NeverBeginsAWord(u, spec.prefix)
    ensures Decode(spec, AllIds(spec, Words(u, normalized))) == Squeeze(u, normalized)
  {
    WordsAreTheTextSqueezed(u, normalized);
    DecodedWords(spec, u, Words(u, normalized));
  }

  /**
    From the raw text: when accents and case are kept and no word is unknown, the ids give back the text up to the
    truncation, without its white space and the characters that cleaning drops.
   */
  lemma EncodingGivesTheTextBack(spec: Spec, u: Categories, text: string) returns (cut: string)
    requires DistinctIds(spec) && NoUnknownWord(spec, Words(u, Prepared(spec, u, text))) && NeverBeginsAWord(u, spec.prefix)
    requires !spec.normalizer.stripAccents && !spec.normalizer.lowercase
    ensures cut <= text && |cut| == (if 512 * spec.medianTokenLen < |text| then 512 * spec.medianTokenLen else |text|)
    ensures Decode(spec, AllIds(spec, Words(u, Prepared(spec, u, text)))) == Squeeze(u, Undropped(spec.normalizer, u, cut))
  {
    hide DistinctIds, NoUnknownWord, NeverBeginsAWord, Words, Decode, AllIds, Prepared;
    cut := PreparedIsACleanedPrefix(spec, u, text);
    EncodeThenDecode(spec, u, Prepared(spec, u, text));
    CleaningMovesOnlyWhitespace(spec.normalizer, u, cut);
  }
}
