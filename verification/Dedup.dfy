/** Collapsing exact and near duplicates in rank order, and the fingerprint the near test compares. */
module Dedup {
  import opened Texts
  import opened Wrappers

  // ---------------------------------------------------------------------
  // Fingerprints
  // ---------------------------------------------------------------------

  const WIDTH := 64
  const SHINGLE := 3
  const NEAR_DUP_HAMMING := 3

  /** A 64-bit word, bit by bit. */
  type Bits = b: seq<bool> | |b| == WIDTH witness seq(WIDTH, _ => false)

  /** The hash of one shingle's tokens. */
  type ShingleHash = seq<string> -> Bits

  function ShingleCount(tokens: seq<string>): nat {
    if tokens == [] then 0 else if |tokens| < SHINGLE then 1 else |tokens| - SHINGLE + 1
  }

  function ShingleAt(tokens: seq<string>, i: nat): seq<string>
    requires i < ShingleCount(tokens)
  {
    tokens[i..if i + SHINGLE < |tokens| then i + SHINGLE else |tokens|]
  }

  /** How many of the first n shingles hash to a word with this bit set. */
  ghost function Ones(h: ShingleHash, tokens: seq<string>, bit: nat, n: nat): nat
    requires bit < WIDTH && n <= ShingleCount(tokens)
  {
    if n == 0 then 0
    else Ones(h, tokens, bit, n - 1) + (if h(ShingleAt(tokens, n - 1))[bit] then 1 else 0)
  }

  /** The words of a text between runs of white space. */
  function SplitWhitespace(text: string, current: string): seq<string>
    decreases text
  {
    var closed := if current == "" then [] else [current];
    if text == "" then closed
    else if IsWhite(text[0]) then closed + SplitWhitespace(text[1..], "")
    else SplitWhitespace(text[1..], current + [text[0]])
  }

  function Tokens(text: string): seq<string> {
    SplitWhitespace(text, "")
  }

  /** A 64-bit unsigned integer. */
  type Word = w: int | 0 <= w < 0x1_0000_0000_0000_0000

  function AsciiLower(b: Byte): Byte {
    if 'A' as int <= b <= 'Z' as int then b + 32 else b
  }

  const FNV_OFFSET: Word := 0xcbf2_9ce4_8422_2325
  const FNV_PRIME := 0x0000_0100_0000_01b3

  /** Exclusive or with a byte, which reaches the low eight bits only. */
  function Xor(h: Word, b: Byte): Word {
    h / 0x100 * 0x100 + ((h % 0x100) as bv8 ^ b as bv8) as int
  }

  function FnvByte(h: Word, b: Byte): Word {
    Xor(h, b) * FNV_PRIME % 0x1_0000_0000_0000_0000
  }

  function FnvBytes(h: Word, bytes: seq<Byte>): Word
    decreases bytes
  {
    if bytes == [] then h else FnvBytes(FnvByte(h, AsciiLower(bytes[0])), bytes[1..])
  }

  function FnvText(h: Word, text: string): Word
    decreases text
  {
    if text == "" then h else FnvText(FnvBytes(h, Utf8(text[0])), text[1..])
  }

  /** FNV-1a over the bytes of the tokens, lowered in ASCII and joined by single spaces. */
  function Fnv1a(tokens: seq<string>): Word {
    if tokens == [] then FNV_OFFSET
    else
      var last := tokens[|tokens| - 1];
      if |tokens| == 1 then FnvText(FNV_OFFSET, last)
      else FnvText(FnvByte(Fnv1a(tokens[..|tokens| - 1]), ' ' as int), last)
  }

  function PowerOfTwo(k: nat): (p: nat)
    ensures p > 0
  {
    if k == 0 then 1 else 2 * PowerOfTwo(k - 1)
  }

  predicate BitAt(word: Word, i: nat) {
    word / PowerOfTwo(i) % 2 == 1
  }

  function BitsOf(word: Word): Bits {
    seq(WIDTH, i requires 0 <= i < WIDTH => BitAt(word, i))
  }

  function ShingleBits(tokens: seq<string>): Bits {
    BitsOf(Fnv1a(tokens))
  }

  /** A bit of a text's fingerprint is set exactly when most of its shingles set it; a blank text sets none. */
  method Simhash(text: string) returns (out: Bits)
    ensures forall bit | 0 <= bit < WIDTH ::
              out[bit] <==> 2 * Ones(ShingleBits, Tokens(text), bit, ShingleCount(Tokens(text))) > ShingleCount(Tokens(text))
  {
    out := MajorityBits(ShingleBits, Tokens(text));
  }

  /** The vote per bit over a text's shingles, then its sign, under any hash of shingles. */
  method MajorityBits(h: ShingleHash, tokens: seq<string>) returns (out: Bits)
    ensures forall bit | 0 <= bit < WIDTH ::
              out[bit] <==> 2 * Ones(h, tokens, bit, ShingleCount(tokens)) > ShingleCount(tokens)
  {
    if tokens == [] {
      return seq(WIDTH, _ => false);
    }
    var votes := new int[WIDTH](_ => 0);
    var shingles := ShingleCount(tokens);
    for i := 0 to shingles
      invariant forall bit | 0 <= bit < WIDTH :: votes[bit] == 2 * Ones(h, tokens, bit, i) - i
    {
      var word := h(ShingleAt(tokens, i));
      for bit := 0 to WIDTH
        invariant forall b | 0 <= b < bit :: votes[b] == 2 * Ones(h, tokens, b, i + 1) - (i + 1)
        invariant forall b | bit <= b < WIDTH :: votes[b] == 2 * Ones(h, tokens, b, i) - i
      {
        if word[bit] {
          votes[bit] := votes[bit] + 1;
        } else {
          votes[bit] := votes[bit] - 1;
        }
      }
    }
    ghost var final := votes[..];
    var bits: seq<bool> := [];
    for bit := 0 to WIDTH
      invariant |bits| == bit && votes[..] == final
      invariant forall b | 0 <= b < bit :: bits[b] <==> final[b] > 0
    {
      bits := bits + [votes[bit] > 0];
    }
    out := bits;
  }

  /** Differing bits among the first n. */
  function Differing(a: Bits, b: Bits, n: nat): nat
    requires n <= WIDTH
  {
    if n == 0 then 0 else Differing(a, b, n - 1) + (if a[n - 1] != b[n - 1] then 1 else 0)
  }

  function Hamming(a: Bits, b: Bits): nat {
    Differing(a, b, WIDTH)
  }

  predicate NearDuplicate(a: Bits, b: Bits) {
    Hamming(a, b) <= NEAR_DUP_HAMMING
  }

  lemma {:induction false} DifferingIsAMetric(a: Bits, b: Bits, c: Bits, n: nat)
    requires n <= WIDTH
    ensures Differing(a, b, n) == Differing(b, a, n)
    ensures Differing(a, c, n) <= Differing(a, b, n) + Differing(b, c, n)
    ensures Differing(a, b, n) == 0 <==> a[..n] == b[..n]
  {
    if n > 0 {
      DifferingIsAMetric(a, b, c, n - 1);
      assert a[..n] == a[..n - 1] + [a[n - 1]] && b[..n] == b[..n - 1] + [b[n - 1]];
    }
  }

  /** The near test is symmetric and holds of equal words; two near steps differ in at most six bits. */
  lemma NearDuplicateIsATolerance(a: Bits, b: Bits, c: Bits)
    ensures NearDuplicate(a, a) && (NearDuplicate(a, b) <==> NearDuplicate(b, a))
    ensures NearDuplicate(a, b) && NearDuplicate(b, c) ==> Hamming(a, c) <= 6
  {
    DifferingIsAMetric(a, a, a, WIDTH);
    DifferingIsAMetric(a, b, c, WIDTH);
  }

  // ---------------------------------------------------------------------
  // What a fingerprint is made of
  // ---------------------------------------------------------------------

  /** The places at which two words differ. */
  function DiffersAt(a: Bits, b: Bits, n: int): set<int>
    requires n <= WIDTH
  {
    set i | 0 <= i < n && a[i] != b[i]
  }

  lemma {:induction false} DifferingCounts(a: Bits, b: Bits, n: nat)
    requires n <= WIDTH
    ensures Differing(a, b, n) == |DiffersAt(a, b, n)|
  {
    if n > 0 {
      DifferingCounts(a, b, n - 1);
      assert DiffersAt(a, b, n) == DiffersAt(a, b, n - 1) + if a[n - 1] != b[n - 1] then {n - 1} else {};
    }
  }

  /** Two words are near when at most three of their 64 bits differ. */
  lemma NearIsThreeBits(a: Bits, b: Bits)
    ensures NearDuplicate(a, b) <==> |set i | 0 <= i < 64 && a[i] != b[i]| <= 3
  {
    DifferingCounts(a, b, WIDTH);
    assert DiffersAt(a, b, WIDTH) == set i | 0 <= i < 64 && a[i] != b[i];
  }

  /** A text of fewer than three tokens is one shingle; a longer one has each run of three tokens. */
  lemma ShinglesAreRunsOfThree(tokens: seq<string>)
    ensures ShingleCount(tokens) == if tokens == [] then 0 else if |tokens| < 3 then 1 else |tokens| - 2
    ensures 0 < |tokens| < 3 ==> ShingleAt(tokens, 0) == tokens
    ensures forall i | 0 <= i < |tokens| - 2 :: ShingleAt(tokens, i) == [tokens[i], tokens[i + 1], tokens[i + 2]]
  {
  }

  /** The shingles whose hash has the bit set. */
  ghost function SetIn(h: ShingleHash, tokens: seq<string>, bit: nat, n: nat): set<int>
    requires bit < WIDTH && n <= ShingleCount(tokens)
  {
    set k | 0 <= k < n && h(ShingleAt(tokens, k))[bit]
  }

  lemma {:induction false} OnesCounts(h: ShingleHash, tokens: seq<string>, bit: nat, n: nat)
    requires bit < WIDTH && n <= ShingleCount(tokens)
    ensures Ones(h, tokens, bit, n) == |SetIn(h, tokens, bit, n)|
  {
    hide ShingleAt, ShingleCount;
    if n > 0 {
      OnesCounts(h, tokens, bit, n - 1);
      assert SetIn(h, tokens, bit, n) ==
             SetIn(h, tokens, bit, n - 1) + if h(ShingleAt(tokens, n - 1))[bit] then {n - 1} else {};
    }
  }

  lemma {:induction false} SplitAtWhite(a: string, c: char, b: string, current: string)
    requires IsWhite(c)
    ensures SplitWhitespace(a + [c] + b, current) == SplitWhitespace(a, current) + SplitWhitespace(b, "")
    decreases a
  {
    var t := a + [c] + b;
    if a == "" {
      assert t[0] == c && t[1..] == b;
    } else {
      assert t[0] == a[0] && t[1..] == a[1..] + [c] + b;
      SplitAtWhite(a[1..], c, b, if IsWhite(a[0]) then "" else current + [a[0]]);
    }
  }

  lemma {:induction false} NoWhiteNoSplit(w: string, current: string)
    requires forall i | 0 <= i < |w| :: !IsWhite(w[i])
    ensures SplitWhitespace(w, current) == if current + w == "" then [] else [current + w]
    decreases w
  {
    if w != "" {
      NoWhiteNoSplit(w[1..], current + [w[0]]);
      assert current + [w[0]] + w[1..] == current + w;
    } else {
      assert current + w == current;
    }
  }

  /** White space separates tokens and stays out of them; a text without any is one token, or none when it is empty. */
  lemma TokensAreCutAtWhiteSpace(a: string, c: char, b: string)
    ensures IsWhite(c) ==> Tokens(a + [c] + b) == Tokens(a) + Tokens(b)
    ensures (forall i | 0 <= i < |a| :: !IsWhite(a[i])) ==> Tokens(a) == if a == "" then [] else [a]
  {
    if IsWhite(c) {
      SplitAtWhite(a, c, b, "");
    }
    if forall i | 0 <= i < |a| :: !IsWhite(a[i]) {
      NoWhiteNoSplit(a, "");
      assert "" + a == a;
    }
  }

  /** The bytes that are hashed: those of the tokens, capital ASCII letters as small ones, a space between tokens. */
  function TextBytes(text: string): seq<Byte> {
    if text == "" then [] else TextBytes(text[..|text| - 1]) + LoweredBytes(Utf8(text[|text| - 1]))
  }

  function LoweredBytes(bytes: seq<Byte>): seq<Byte> {
    seq(|bytes|, i requires 0 <= i < |bytes| => if 0x41 <= bytes[i] <= 0x5A then bytes[i] + 0x20 else bytes[i])
  }

  function JoinedBytes(tokens: seq<string>): seq<Byte> {
    if tokens == [] then []
    else if |tokens| == 1 then TextBytes(tokens[0])
    else JoinedBytes(tokens[..|tokens| - 1]) + [0x20] + TextBytes(tokens[|tokens| - 1])
  }

  /** FNV-1a of a run of bytes: exclusive or, then a product that wraps around at 64 bits. */
  function Fnv(bytes: seq<Byte>): Word {
    if bytes == [] then 0xcbf29ce484222325
    else Xor(Fnv(bytes[..|bytes| - 1]), bytes[|bytes| - 1]) * 0x100000001b3 % 0x1_0000_0000_0000_0000
  }

  /** A byte changes the eight low bits, each when its own bit is set, and nothing else. */
  lemma XorTogglesBits(h: Word, b: Byte)
    ensures Xor(h, b) / 0x100 == h / 0x100
    ensures (Xor(h, b) % 0x100) as bv8 == (h % 0x100) as bv8 ^ b as bv8
  {
  }

  lemma FnvOfOneMore(before: seq<Byte>, b: Byte)
    ensures Fnv(before + [b]) == FnvByte(Fnv(before), b)
  {
    hide Xor;
    assert (before + [b])[..|before|] == before;
  }

  lemma LoweredFirst(before: seq<Byte>, bytes: seq<Byte>)
    requires bytes != []
    ensures before + LoweredBytes(bytes) == (before + [AsciiLower(bytes[0])]) + LoweredBytes(bytes[1..])
  {
  }

  lemma {:induction false} FnvOfBytes(before: seq<Byte>, bytes: seq<Byte>)
    ensures FnvBytes(Fnv(before), bytes) == Fnv(before + LoweredBytes(bytes))
    decreases bytes
  {
    if bytes == [] {
      assert before + LoweredBytes(bytes) == before;
    } else {
      hide Fnv, FnvByte, AsciiLower, LoweredBytes;
      FnvOfOneMore(before, AsciiLower(bytes[0]));
      FnvOfBytes(before + [AsciiLower(bytes[0])], bytes[1..]);
      LoweredFirst(before, bytes);
    }
  }

  lemma {:induction false} TextBytesFirst(text: string)
    requires text != ""
    ensures TextBytes(text) == LoweredBytes(Utf8(text[0])) + TextBytes(text[1..])
  {
    hide LoweredBytes, Utf8;
    var n := |text| - 1;
    if n == 0 {
      assert text[..0] == "" && text[1..] == "";
    } else {
      var first, last := LoweredBytes(Utf8(text[0])), LoweredBytes(Utf8(text[n]));
      TextBytesFirst(text[..n]);
      assert text[..n][1..] == text[1..][..n - 1];
      assert TextBytes(text) == TextBytes(text[..n]) + last;
      assert TextBytes(text[1..]) == TextBytes(text[1..][..n - 1]) + last;
      hide TextBytes;
    }
  }

  lemma {:induction false} FnvOfText(before: seq<Byte>, text: string)
    ensures FnvText(Fnv(before), text) == Fnv(before + TextBytes(text))
    decreases text
  {
    hide Fnv, FnvBytes, LoweredBytes, Utf8;
    if text == "" {
      assert before + TextBytes(text) == before;
    } else {
      TextBytesFirst(text);
      FnvOfBytes(before, Utf8(text[0]));
      FnvOfText(before + LoweredBytes(Utf8(text[0])), text[1..]);
      assert before + TextBytes(text) == (before + LoweredBytes(Utf8(text[0]))) + TextBytes(text[1..]);
    }
  }

  /** The hash of a shingle is FNV-1a over the bytes of its tokens. */
  lemma {:induction false} ShingleHashIsFnv(tokens: seq<string>)
    ensures Fnv1a(tokens) == Fnv(JoinedBytes(tokens))
  {
    hide FnvText, TextBytes;
    if |tokens| == 1 {
      FnvOfText([], tokens[0]);
      assert [] + TextBytes(tokens[0]) == TextBytes(tokens[0]);
    } else if |tokens| > 1 {
      var front, last := tokens[..|tokens| - 1], tokens[|tokens| - 1];
      ShingleHashIsFnv(front);
      var spaced := JoinedBytes(front) + [0x20];
      assert spaced[..|spaced| - 1] == JoinedBytes(front);
      FnvOfText(spaced, last);
    }
  }

  /** The number the first n bits are the binary digits of. */
  function BinaryValue(bits: seq<bool>, n: nat): nat
    requires n <= |bits|
  {
    if n == 0 then 0 else BinaryValue(bits, n - 1) + if bits[n - 1] then PowerOfTwo(n - 1) else 0
  }

  lemma {:induction false} LowBits(word: Word, n: nat)
    requires n <= WIDTH
    ensures BinaryValue(BitsOf(word), n) == word % PowerOfTwo(n)
  {
    if n > 0 {
      LowBits(word, n - 1);
      OneMoreBit(word, PowerOfTwo(n - 1));
    }
  }

  lemma OneMoreBit(word: nat, p: nat)
    requires p > 0
    ensures word % (2 * p) == word % p + if word / p % 2 == 1 then p else 0
  {
    var q := word / p;
    var r := word % p;
    assert word == p * q + r;
    assert word == (2 * p) * (q / 2) + (p * (q % 2) + r) by {
      assert q == 2 * (q / 2) + q % 2;
      assert p * q == p * (2 * (q / 2)) + p * (q % 2);
      assert p * (2 * (q / 2)) == (2 * p) * (q / 2);
    }
    RemainderIs(word, 2 * p, q / 2, p * (q % 2) + r);
  }

  lemma RemainderIs(n: nat, k: nat, q: nat, r: nat)
    requires k > 0 && n == k * q + r && r < k
    ensures n % k == r
  {
    var d := n / k - q;
    assert k * d == k * (n / k) - k * q == r - n % k;
    MultipleIsFar(k, d);
  }

  lemma MultipleIsFar(k: nat, d: int)
    ensures d >= 1 ==> k * d >= k
    ensures d <= -1 ==> k * d <= -(k as int)
  {
  }

  /** The fingerprint's bits are the binary digits of the word, the lowest first. */
  lemma BitsAreBinaryDigits(word: Word)
    ensures BinaryValue(BitsOf(word), 64) == word
  {
    LowBits(word, 64);
    assert PowerOfTwo(64) == 0x1_0000_0000_0000_0000 by {
      SixtyFour();
    }
  }

  lemma {:induction false} PowersMultiply(a: nat, b: nat)
    ensures PowerOfTwo(a + b) == PowerOfTwo(a) * PowerOfTwo(b)
  {
    if b > 0 {
      PowersMultiply(a, b - 1);
      assert PowerOfTwo(a) * (2 * PowerOfTwo(b - 1)) == 2 * (PowerOfTwo(a) * PowerOfTwo(b - 1));
    }
  }

  lemma SixtyFour()
    ensures PowerOfTwo(64) == 0x1_0000_0000_0000_0000
  {
    assert PowerOfTwo(1) == 2 && PowerOfTwo(2) == 4;
    PowersMultiply(2, 2);
    PowersMultiply(4, 4);
    PowersMultiply(8, 8);
    PowersMultiply(16, 16);
    PowersMultiply(32, 32);
  }

  // ---------------------------------------------------------------------
  // The pass
  // ---------------------------------------------------------------------

  datatype Candidate = Candidate(key: int, exactHash: Option<string>, text: string)

  datatype Verdict = Keep(absorbed: seq<int>) | Duplicate(of: int)

  type Candidates = seq<Candidate>

  type Fingerprint = string -> Bits

  predicate SameHash(a: Candidate, b: Candidate) {
    a.exactHash.Some? && a.exactHash.value != "" && a.exactHash == b.exactHash
  }

  predicate Near(fp: Fingerprint, a: Candidate, b: Candidate) {
    NearDuplicate(fp(a.text), fp(b.text))
  }

  /** A later candidate folds into an earlier kept one. */
  predicate Matches(fp: Fingerprint, kept: Candidate, c: Candidate) {
    SameHash(kept, c) || (!Blank(c.text) && Near(fp, kept, c))
  }

  predicate Index(cs: Candidates, kept: seq<nat>) {
    forall x | 0 <= x < |kept| :: kept[x] < |cs|
  }

  function FirstSameHash(cs: Candidates, kept: seq<nat>, c: Candidate): (r: Option<nat>)
    requires Index(cs, kept)
    ensures r.Some? ==> r.value in kept
  {
    if kept == [] then None
    else
      var n := |kept| - 1;
      var earlier := FirstSameHash(cs, kept[..n], c);
      if earlier.Some? then earlier else if SameHash(cs[kept[n]], c) then Some(kept[n]) else None
  }

  function FirstNear(fp: Fingerprint, cs: Candidates, kept: seq<nat>, c: Candidate): (r: Option<nat>)
    requires Index(cs, kept)
    ensures r.Some? ==> r.value in kept
  {
    if kept == [] then None
    else
      var n := |kept| - 1;
      var earlier := FirstNear(fp, cs, kept[..n], c);
      if earlier.Some? then earlier else if Near(fp, cs[kept[n]], c) then Some(kept[n]) else None
  }

  /** The candidates kept among the first i, in order. */
  function KeptBefore(fp: Fingerprint, cs: Candidates, i: nat): (kept: seq<nat>)
    requires i <= |cs|
    ensures forall x | 0 <= x < |kept| :: kept[x] < i
    decreases i, 0
  {
    if i == 0 then []
    else KeptBefore(fp, cs, i - 1) + (if Owner(fp, cs, i - 1).None? then [i - 1] else [])
  }

  /** The kept candidate that candidate i folds into: the first with its hash, else the first near it. */
  function Owner(fp: Fingerprint, cs: Candidates, i: nat): Option<nat>
    requires i < |cs|
    decreases i, 1
  {
    var kept := KeptBefore(fp, cs, i);
    var exact := FirstSameHash(cs, kept, cs[i]);
    if exact.Some? || Blank(cs[i].text) then exact else FirstNear(fp, cs, kept, cs[i])
  }

  /** The keys of the candidates in j..n that candidate j owns. */
  function AbsorbedBy(fp: Fingerprint, cs: Candidates, j: nat, n: nat): seq<int>
    requires n <= |cs|
  {
    if n == 0 then []
    else AbsorbedBy(fp, cs, j, n - 1) + (if Owner(fp, cs, n - 1) == Some(j) then [cs[n - 1].key] else [])
  }

  ghost predicate JudgedUpTo(fp: Fingerprint, cs: Candidates, verdicts: seq<Verdict>, n: nat)
    requires n <= |cs|
  {
    |verdicts| == n && forall i | 0 <= i < n :: JudgedAs(fp, cs, verdicts[i], i, n)
  }

  ghost predicate JudgedAs(fp: Fingerprint, cs: Candidates, v: Verdict, i: nat, n: nat)
    requires i < n <= |cs|
  {
    match Owner(fp, cs, i)
    case Some(j) => j < i && v == Duplicate(cs[j].key)
    case None => v == Keep(AbsorbedBy(fp, cs, i, n))
  }

  // The pass keeps, beside the verdicts, the kept candidates' fingerprints and their non-empty hashes.

  type WordList = seq<(nat, Bits)>
  type HashList = seq<(nat, string)>

  function HasHash(c: Candidate): bool {
    c.exactHash.Some? && c.exactHash.value != ""
  }

  ghost function WordsOf(fp: Fingerprint, cs: Candidates, kept: seq<nat>): WordList
    requires Index(cs, kept)
  {
    if kept == [] then []
    else WordsOf(fp, cs, kept[..|kept| - 1]) + [(kept[|kept| - 1], fp(cs[kept[|kept| - 1]].text))]
  }

  ghost function HashesOf(cs: Candidates, kept: seq<nat>): HashList
    requires Index(cs, kept)
  {
    if kept == [] then []
    else
      var last := kept[|kept| - 1];
      HashesOf(cs, kept[..|kept| - 1]) + (if HasHash(cs[last]) then [(last, cs[last].exactHash.value)] else [])
  }

  function FindHash(hashes: HashList, h: string): Option<nat> {
    if hashes == [] then None
    else
      var n := |hashes| - 1;
      var earlier := FindHash(hashes[..n], h);
      if earlier.Some? then earlier else if hashes[n].1 == h then Some(hashes[n].0) else None
  }

  function FindNear(words: WordList, w: Bits): Option<nat> {
    if words == [] then None
    else
      var n := |words| - 1;
      var earlier := FindNear(words[..n], w);
      if earlier.Some? then earlier else if NearDuplicate(words[n].1, w) then Some(words[n].0) else None
  }

  lemma {:induction false} FindHashFindsFirst(cs: Candidates, kept: seq<nat>, c: Candidate)
    requires Index(cs, kept)
    ensures FirstSameHash(cs, kept, c) == if HasHash(c) then FindHash(HashesOf(cs, kept), c.exactHash.value) else None
  {
    if kept != [] {
      FindHashFindsFirst(cs, kept[..|kept| - 1], c);
      var hashes := HashesOf(cs, kept);
      if HasHash(cs[kept[|kept| - 1]]) {
        assert hashes[..|hashes| - 1] == HashesOf(cs, kept[..|kept| - 1]);
      } else {
        assert hashes == HashesOf(cs, kept[..|kept| - 1]);
      }
    }
  }

  lemma {:induction false} FindNearFindsFirst(fp: Fingerprint, cs: Candidates, kept: seq<nat>, c: Candidate)
    requires Index(cs, kept)
    ensures FirstNear(fp, cs, kept, c) == FindNear(WordsOf(fp, cs, kept), fp(c.text))
  {
    hide NearDuplicate;
    if kept != [] {
      FindNearFindsFirst(fp, cs, kept[..|kept| - 1], c);
      var words := WordsOf(fp, cs, kept);
      assert words[..|words| - 1] == WordsOf(fp, cs, kept[..|kept| - 1]);
    }
  }

  lemma KeepOneMore(fp: Fingerprint, cs: Candidates, i: nat)
    requires i < |cs|
    ensures var kept, more := KeptBefore(fp, cs, i), KeptBefore(fp, cs, i + 1);
            if Owner(fp, cs, i).Some? then more == kept
            else && WordsOf(fp, cs, more) == WordsOf(fp, cs, kept) + [(i, fp(cs[i].text))]
                 && HashesOf(cs, more)
                    == HashesOf(cs, kept) + (if HasHash(cs[i]) then [(i, cs[i].exactHash.value)] else [])
  {
    hide Owner;
    var kept, more := KeptBefore(fp, cs, i), KeptBefore(fp, cs, i + 1);
    if Owner(fp, cs, i).None? {
      assert more[..|more| - 1] == kept;
    }
  }

  /** Whoever owns a candidate is earlier and is itself kept. */
  lemma {:induction false} KeptMeansUnowned(fp: Fingerprint, cs: Candidates, i: nat)
    requires i <= |cs|
    ensures forall k: nat | k < i :: k in KeptBefore(fp, cs, i) <==> Owner(fp, cs, k).None?
  {
    hide Owner;
    if i > 0 {
      KeptMeansUnowned(fp, cs, i - 1);
    }
  }

  lemma {:induction false} NothingAbsorbedYet(fp: Fingerprint, cs: Candidates, j: nat, n: nat)
    requires n <= |cs| && n <= j + 1
    ensures AbsorbedBy(fp, cs, j, n) == []
  {
    hide FirstSameHash, FirstNear;
    if n > 0 {
      NothingAbsorbedYet(fp, cs, j, n - 1);
    }
  }

  method Dedup(fp: Fingerprint, cs: Candidates) returns (verdicts: seq<Verdict>)
    ensures JudgedUpTo(fp, cs, verdicts, |cs|)
  {
    hide Owner, NearDuplicate, WordsOf, HashesOf, FindHash, FindNear, FirstSameHash, FirstNear;
    verdicts := [];
    var kept: WordList := [];
    var keptHashes: HashList := [];
    NothingKeptYet(fp, cs);
    for i := 0 to |cs|
      invariant JudgedUpTo(fp, cs, verdicts, i)
      invariant kept == WordsOf(fp, cs, KeptBefore(fp, cs, i))
      invariant keptHashes == HashesOf(cs, KeptBefore(fp, cs, i))
    {
      var c := cs[i];
      var dupeOf: Option<nat> := None;
      if HasHash(c) {
        dupeOf := FindHash(keptHashes, c.exactHash.value);
      }
      var word := fp(c.text);
      if dupeOf.None? && Trim(c.text) != "" {
        dupeOf := FindNear(kept, word);
      }
      OwnerIsFound(fp, cs, i, dupeOf);
      KeepOneMore(fp, cs, i);
      match dupeOf {
        case Some(j) =>
          verdicts := verdicts + [Duplicate(cs[j].key)];
          if verdicts[j].Keep? {
            verdicts := verdicts[j := Keep(verdicts[j].absorbed + [c.key])];
          }
        case None =>
          KeepOne(fp, cs, verdicts, i);
          kept := kept + [(i, word)];
          if HasHash(c) {
            keptHashes := keptHashes + [(i, c.exactHash.value)];
          }
          verdicts := verdicts + [Keep([])];
      }
    }
  }

  lemma NothingKeptYet(fp: Fingerprint, cs: Candidates)
    ensures WordsOf(fp, cs, KeptBefore(fp, cs, 0)) == [] && HashesOf(cs, KeptBefore(fp, cs, 0)) == []
  {
  }

  lemma OwnerIsFound(fp: Fingerprint, cs: Candidates, i: nat, found: Option<nat>)
    requires i < |cs|
    requires var kept, c := KeptBefore(fp, cs, i), cs[i];
             var exact := if HasHash(c) then FindHash(HashesOf(cs, kept), c.exactHash.value) else None;
             found == if exact.None? && Trim(c.text) != "" then FindNear(WordsOf(fp, cs, kept), fp(c.text)) else exact
    ensures found == Owner(fp, cs, i)
    ensures found.Some? ==> found.value < i && Owner(fp, cs, found.value).None?
  {
    hide NearDuplicate, WordsOf, HashesOf, FindHash, FindNear, FirstSameHash, FirstNear;
    FindHashFindsFirst(cs, KeptBefore(fp, cs, i), cs[i]);
    FindNearFindsFirst(fp, cs, KeptBefore(fp, cs, i), cs[i]);
    KeptMeansUnowned(fp, cs, i);
  }

  lemma KeepOne(fp: Fingerprint, cs: Candidates, verdicts: seq<Verdict>, i: nat)
    requires i < |cs| && JudgedUpTo(fp, cs, verdicts, i) && Owner(fp, cs, i).None?
    ensures JudgedUpTo(fp, cs, verdicts + [Keep([])], i + 1)
  {
    hide Owner;
    NothingAbsorbedYet(fp, cs, i, i + 1);
    var next := verdicts + [Keep([])];
    forall k | 0 <= k < i + 1
      ensures JudgedAs(fp, cs, next[k], k, i + 1)
    {
      if k < i {
        assert JudgedAs(fp, cs, verdicts[k], k, i);
      }
    }
  }

  // ---------------------------------------------------------------------
  // What the verdicts mean
  // ---------------------------------------------------------------------

  lemma {:induction false} FirstFindsOne(fp: Fingerprint, cs: Candidates, kept: seq<nat>, c: Candidate)
    requires Index(cs, kept)
    ensures FirstSameHash(cs, kept, c).None? <==> forall k | k in kept :: !SameHash(cs[k], c)
    ensures FirstSameHash(cs, kept, c).Some? ==> SameHash(cs[FirstSameHash(cs, kept, c).value], c)
    ensures FirstNear(fp, cs, kept, c).None? <==> forall k | k in kept :: !Near(fp, cs[k], c)
    ensures FirstNear(fp, cs, kept, c).Some? ==> Near(fp, cs[FirstNear(fp, cs, kept, c).value], c)
  {
    hide SameHash, Near;
    if kept != [] {
      var front, last := kept[..|kept| - 1], kept[|kept| - 1];
      assert kept == front + [last];
      FirstFindsOne(fp, cs, front, c);
    }
  }

  /**
    Each candidate is kept or owned by one earlier kept candidate it matches, and a candidate is
    kept exactly when no earlier kept one has its hash or, if its text is not blank, is near it.
   */
  lemma EachIsKeptOrOwned(fp: Fingerprint, cs: Candidates, i: nat)
    requires i < |cs|
    ensures Owner(fp, cs, i).Some? ==>
              var j := Owner(fp, cs, i).value;
              j < i && Owner(fp, cs, j).None? && Matches(fp, cs[j], cs[i])
    ensures Owner(fp, cs, i).None? <==>
              forall j: nat | j < i && Owner(fp, cs, j).None? :: !Matches(fp, cs[j], cs[i])
  {
    hide SameHash, Near, Texts.Blank, FirstSameHash, FirstNear;
    FirstFindsOne(fp, cs, KeptBefore(fp, cs, i), cs[i]);
    KeptMeansUnowned(fp, cs, i);
  }

  ghost predicate DistinctKeys(cs: Candidates) {
    forall i, j | 0 <= i < j < |cs| :: cs[i].key != cs[j].key
  }

  lemma {:induction false} AbsorbedKeys(fp: Fingerprint, cs: Candidates, j: nat, n: nat, key: int)
    requires n <= |cs|
    ensures key in AbsorbedBy(fp, cs, j, n) <==> exists k :: 0 <= k < n && Owner(fp, cs, k) == Some(j) && cs[k].key == key
  {
    hide Owner;
    if n > 0 {
      AbsorbedKeys(fp, cs, j, n - 1, key);
    }
  }

  /** With distinct keys the absorbed lists and the Duplicate verdicts name the same pairs. */
  lemma AbsorbedMirrorsDuplicate(fp: Fingerprint, cs: Candidates, verdicts: seq<Verdict>, j: nat, k: nat)
    requires DistinctKeys(cs) && JudgedUpTo(fp, cs, verdicts, |cs|) && j < |cs| && k < |cs|
    ensures verdicts[k] == Duplicate(cs[j].key)
            <==> verdicts[j].Keep? && cs[k].key in verdicts[j].absorbed
  {
    hide Owner;
    assert JudgedAs(fp, cs, verdicts[k], k, |cs|) && JudgedAs(fp, cs, verdicts[j], j, |cs|);
    AbsorbedKeys(fp, cs, j, |cs|, cs[k].key);
    EachIsKeptOrOwned(fp, cs, k);
  }

  /** No two kept candidates match: neither by a non-empty hash nor, when the later is not blank, by nearness. */
  lemma KeptCandidatesDiffer(fp: Fingerprint, cs: Candidates, i: nat, j: nat)
    requires j < i < |cs| && Owner(fp, cs, i).None? && Owner(fp, cs, j).None?
    ensures cs[i].exactHash == cs[j].exactHash ==> cs[i].exactHash == None || cs[i].exactHash == Some("")
    ensures AllWhite(cs[i].text) || !NearDuplicate(fp(cs[j].text), fp(cs[i].text))
    ensures !Matches(fp, cs[j], cs[i])
  {
    hide Owner, Texts.Blank, NearDuplicate;
    EachIsKeptOrOwned(fp, cs, i);
    BlankIsAllWhite(cs[i].text);
  }

  // ---------------------------------------------------------------------
  // Running it again
  // ---------------------------------------------------------------------

  function Survivors(fp: Fingerprint, cs: Candidates, n: nat): Candidates
    requires n <= |cs|
  {
    if n == 0 then []
    else Survivors(fp, cs, n - 1) + (if Owner(fp, cs, n - 1).None? then [cs[n - 1]] else [])
  }

  /** The survivors are the kept candidates, that is those without an owner, in their order. */
  lemma {:induction false} SurvivorsAreTheKept(fp: Fingerprint, cs: Candidates, n: nat)
    requires n <= |cs|
    ensures |Survivors(fp, cs, n)| == |KeptBefore(fp, cs, n)|
    ensures forall k | 0 <= k < |KeptBefore(fp, cs, n)| :: Survivors(fp, cs, n)[k] == cs[KeptBefore(fp, cs, n)[k]]
    ensures forall i: nat | i < n :: i in KeptBefore(fp, cs, n) <==> Owner(fp, cs, i).None?
  {
    hide Owner;
    KeptMeansUnowned(fp, cs, n);
    if n > 0 {
      SurvivorsAreTheKept(fp, cs, n - 1);
    }
  }

  ghost predicate AllDiffer(fp: Fingerprint, s: Candidates) {
    forall a, b | 0 <= a < b < |s| :: !Matches(fp, s[a], s[b])
  }

  ghost predicate WasKept(fp: Fingerprint, cs: Candidates, n: nat, c: Candidate)
    requires n <= |cs|
  {
    exists i :: 0 <= i < n && Owner(fp, cs, i).None? && c == cs[i]
  }

  lemma {:induction false} SurvivorsDiffer(fp: Fingerprint, cs: Candidates, n: nat)
    requires n <= |cs|
    ensures forall a | 0 <= a < |Survivors(fp, cs, n)| :: WasKept(fp, cs, n, Survivors(fp, cs, n)[a])
    ensures AllDiffer(fp, Survivors(fp, cs, n))
  {
    hide Owner, Matches;
    if n > 0 {
      SurvivorsDiffer(fp, cs, n - 1);
      var s, before := Survivors(fp, cs, n), Survivors(fp, cs, n - 1);
      if Owner(fp, cs, n - 1).None? {
        forall a | 0 <= a < |before|
          ensures !Matches(fp, s[a], cs[n - 1])
        {
          assert WasKept(fp, cs, n - 1, before[a]);
          var i :| 0 <= i < n - 1 && Owner(fp, cs, i).None? && before[a] == cs[i];
          KeptCandidatesDiffer(fp, cs, n - 1, i);
        }
      }
      forall a | 0 <= a < |s|
        ensures WasKept(fp, cs, n, s[a])
      {
        assert a < |before| ==> WasKept(fp, cs, n - 1, before[a]);
      }
    }
  }

  /** A second pass over the survivors keeps every one of them and absorbs nothing. */
  lemma SecondPassAbsorbsNothing(fp: Fingerprint, cs: Candidates, verdicts: seq<Verdict>)
    requires JudgedUpTo(fp, Survivors(fp, cs, |cs|), verdicts, |Survivors(fp, cs, |cs|)|)
    ensures forall i | 0 <= i < |verdicts| :: verdicts[i] == Keep([])
  {
    hide Owner, Matches;
    var s := Survivors(fp, cs, |cs|);
    SurvivorsDiffer(fp, cs, |cs|);
    forall i: nat | i < |s|
      ensures Owner(fp, s, i).None?
    {
      EachIsKeptOrOwned(fp, s, i);
    }
    forall i | 0 <= i < |verdicts|
      ensures verdicts[i] == Keep([])
    {
      assert JudgedAs(fp, s, verdicts[i], i, |s|);
      NobodyAbsorbs(fp, s, i, |s|);
    }
  }

  lemma {:induction false} NobodyAbsorbs(fp: Fingerprint, cs: Candidates, j: nat, n: nat)
    requires n <= |cs| && forall i: nat | i < |cs| :: Owner(fp, cs, i).None?
    ensures AbsorbedBy(fp, cs, j, n) == []
  {
    hide Owner;
    if n > 0 {
      NobodyAbsorbs(fp, cs, j, n - 1);
    }
  }
}
