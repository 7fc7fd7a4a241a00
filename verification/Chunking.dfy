/** The fixed-size chunker of knowledge_platform/contracts.py. */
module Chunking {
  import opened Arithmetic

  /** The decimal digits of an index. */
  function Decimal(n: nat): (r: string)
    ensures r != ""
  {
    var digit := ['0' + (n % 10) as char];
    if n < 10 then digit else Decimal(n / 10) + digit
  }

  lemma {:induction false} DecimalInjective(a: nat, b: nat)
    requires Decimal(a) == Decimal(b)
    ensures a == b
    decreases a + b
  {
    var s, t := Decimal(a), Decimal(b);
    assert s[|s| - 1] == '0' + (a % 10) as char && t[|t| - 1] == '0' + (b % 10) as char;
    assert a < 10 <==> |s| == 1;
    assert b < 10 <==> |t| == 1;
    if a >= 10 {
      assert s[..|s| - 1] == Decimal(a / 10) && t[..|t| - 1] == Decimal(b / 10);
      DecimalInjective(a / 10, b / 10);
    }
  }

  function ChunkId(documentId: string, index: nat): string {
    documentId + ":" + Decimal(index)
  }

  /** The chunks of one document have distinct ids. */
  lemma ChunkIdsDistinct(documentId: string, i: nat, j: nat)
    requires ChunkId(documentId, i) == ChunkId(documentId, j)
    ensures i == j
  {
    var n := |documentId| + 1;
    assert ChunkId(documentId, i)[n..] == Decimal(i) && ChunkId(documentId, j)[n..] == Decimal(j);
    DecimalInjective(i, j);
  }

  /** str.isspace for one character. */
  type Spaces = char -> bool

  datatype Chunker = Chunker(size: nat, overlap: nat, tokenLimit: nat)

  type Metadata = map<string, string>

  datatype Chunk = Chunk(id: string, documentId: string, text: string, index: nat, tokens: nat, metadata: Metadata)

  datatype Creation = Created(chunker: Chunker) | InvalidLimits

  ghost predicate Valid(c: Chunker) {
    c.size >= 1 && c.overlap < c.size && c.tokenLimit >= 1
  }

  method Create(size: int, overlap: int, tokenLimit: int) returns (r: Creation)
    ensures r.Created? <==> size >= 1 && 0 <= overlap < size && tokenLimit >= 1
    ensures r.Created? ==> Valid(r.chunker) && r.chunker == Chunker(size, overlap, tokenLimit)
  {
    if size < 1 || overlap < 0 || overlap >= size || tokenLimit < 1 {
      return InvalidLimits;
    }
    r := Created(Chunker(size, overlap, tokenLimit));
  }

  /** text.split(): the maximal runs of characters that are no spaces. */
  function Words(space: Spaces, text: string): (r: seq<string>)
    ensures |r| <= |text|
    ensures text != [] && !space(text[0]) ==> r != []
  {
    if text == [] then []
    else if space(text[0]) then Words(space, text[1..])
    else if |text| == 1 || space(text[1]) then [[text[0]]] + Words(space, text[1..])
    else
      var rest := Words(space, text[1..]);
      [[text[0]] + rest[0]] + rest[1..]
  }

  /** " ".join(words) */
  function Join(words: seq<string>): string {
    if words == [] then "" else if |words| == 1 then words[0] else words[0] + " " + Join(words[1..])
  }

  // ---------- what splitting and joining mean ----------

  ghost predicate IsWord(space: Spaces, w: string) {
    w != "" && forall i :: 0 <= i < |w| ==> !space(w[i])
  }

  lemma {:induction false} WordsAreWords(space: Spaces, text: string)
    ensures forall w :: w in Words(space, text) ==> IsWord(space, w)
  {
    if text != [] {
      WordsAreWords(space, text[1..]);
      var rest := Words(space, text[1..]);
      assert |text| > 1 && !space(text[1]) ==> rest[0] in rest;
    }
  }

  lemma WordsCons(space: Spaces, x: char, t: string)
    ensures Words(space, [x] + t) ==
            if space(x) then Words(space, t)
            else if t == "" || space(t[0]) then [[x]] + Words(space, t)
            else [[x] + Words(space, t)[0]] + Words(space, t)[1..]
  {
    assert ([x] + t)[1..] == t;
  }

  /** A tail that splits off further words still does with one more character in front. */
  lemma WordsConsSplit(space: Spaces, x: char, t: string, u: string, more: seq<string>)
    requires Words(space, t) == Words(space, u) + more
    requires (t == "" || space(t[0])) == (u == "" || space(u[0]))
    ensures Words(space, [x] + t) == Words(space, [x] + u) + more
  {
    WordsCons(space, x, t);
    WordsCons(space, x, u);
    hide Words;
    if space(x) {
    } else if t == "" || space(t[0]) {
      assert [[x]] + (Words(space, u) + more) == ([[x]] + Words(space, u)) + more;
    } else {
      FirstWordGrows(x, Words(space, t), Words(space, u), more);
    }
  }

  lemma FirstWordGrows(x: char, all: seq<string>, words: seq<string>, more: seq<string>)
    requires all == words + more && words != []
    ensures [[x] + all[0]] + all[1..] == ([[x] + words[0]] + words[1..]) + more
  {
    assert all[1..] == words[1..] + more;
  }

  /** A space separates: with the next lemma this determines the splitting of every text. */
  lemma {:induction false} WordsSplit(space: Spaces, a: string, x: char, b: string)
    requires space(x)
    ensures Words(space, a + ([x] + b)) == Words(space, a) + Words(space, b)
  {
    if a == [] {
      WordsCons(space, x, b);
      assert a + ([x] + b) == [x] + b;
    } else {
      hide Words;
      WordsSplit(space, a[1..], x, b);
      WordsConsSplit(space, a[0], a[1..] + ([x] + b), a[1..], Words(space, b));
      assert [a[0]] + a[1..] == a;
      assert [a[0]] + (a[1..] + ([x] + b)) == a + ([x] + b);
    }
  }

  lemma {:induction false} WordAlone(space: Spaces, w: string)
    requires IsWord(space, w)
    ensures Words(space, w) == [w]
  {
    if |w| > 1 {
      WordAlone(space, w[1..]);
      assert w == [w[0]] + w[1..];
    } else {
      assert Words(space, w[1..]) == [];
      assert w == [w[0]];
    }
  }

  /** Round trip: splitting what was joined gives the words back. */
  lemma {:induction false} WordsOfJoin(space: Spaces, words: seq<string>)
    requires space(' ') && forall w :: w in words ==> IsWord(space, w)
    ensures Words(space, Join(words)) == words
  {
    if |words| == 1 {
      WordAlone(space, words[0]);
    } else if words != [] {
      WordAlone(space, words[0]);
      WordsOfJoin(space, words[1..]);
      WordsSplit(space, words[0], ' ', Join(words[1..]));
      assert Join(words) == words[0] + ([' '] + Join(words[1..]));
      assert words == [words[0]] + words[1..];
    }
  }

  lemma {:induction false} JoinFits(space: Spaces, text: string)
    ensures |Join(Words(space, text))| <= |text|
  {
    if text != [] {
      JoinFits(space, text[1..]);
      if !space(text[0]) && |text| > 1 && space(text[1]) {
        JoinFits(space, text[2..]);
        assert text[1..][1..] == text[2..];
      }
    }
  }

  lemma {:induction false} JoinGrows(words: seq<string>, n: nat)
    requires n < |words| && forall w :: w in words ==> w != ""
    ensures |Join(words[..n])| < |Join(words)|
  {
    assert words[0] in words;
    if n > 1 {
      forall w | w in words[1..] ensures w in words {}
      JoinGrows(words[1..], n - 1);
      assert words[..n][1..] == words[1..][..n - 1];
    }
  }

  /** A window cut down to the token limit, which drops its spacing too. */
  function Cut(space: Spaces, limit: nat, window: string): string {
    var words := Words(space, window);
    if |words| > limit then Join(words[..limit]) else window
  }

  /** Cutting shortens every window that has too many words and leaves the others alone. */
  lemma CutShortens(space: Spaces, limit: nat, window: string)
    ensures if |Words(space, window)| > limit then |Cut(space, limit, window)| < |window|
            else Cut(space, limit, window) == window
  {
    var words := Words(space, window);
    if |words| > limit {
      WordsAreWords(space, window);
      JoinGrows(words, limit);
      JoinFits(space, window);
    }
  }

  function Stride(c: Chunker): nat
    requires c.overlap < c.size
  {
    c.size - c.overlap
  }

  /** text[start : start + size] */
  function Window(text: string, start: nat, size: nat): string {
    if start >= |text| then "" else if start + size >= |text| then text[start..] else text[start..start + size]
  }

  /** The window that starts k strides into the text. */
  function Piece(c: Chunker, text: string, k: nat): string
    requires Valid(c)
  {
    Window(text, k * Stride(c), c.size)
  }

  /** The first n windows all start inside the text. */
  ghost predicate Inside(c: Chunker, text: string, n: nat)
    requires Valid(c)
  {
    n > 0 ==> (n - 1) * Stride(c) < |text|
  }

  /** chunks is exactly one chunk for each stride of the text, in order. */
  ghost predicate Chunks(space: Spaces, c: Chunker, documentId: string, text: string, metadata: Metadata,
                         chunks: seq<Chunk>)
    requires Valid(c)
  {
    && (|chunks| == 0 <==> text == "")
    && |text| <= |chunks| * Stride(c)
    && Inside(c, text, |chunks|)
    && forall k :: 0 <= k < |chunks| ==>
         && chunks[k].text == Cut(space, c.tokenLimit, Piece(c, text, k))
         && chunks[k] == Chunk(ChunkId(documentId, k), documentId, chunks[k].text, k, |Words(space, chunks[k].text)|,
             metadata)
  }

  /** The loop stands at the start of the n-th window. */
  ghost predicate AtStart(c: Chunker, text: string, n: nat, start: nat)
    requires Valid(c)
  {
    start == n * Stride(c) && Inside(c, text, n)
  }

  lemma NextStart(c: Chunker, text: string, n: nat, start: nat)
    requires Valid(c) && AtStart(c, text, n, start) && start < |text|
    ensures AtStart(c, text, n + 1, start + Stride(c))
    ensures Window(text, start, c.size) == Piece(c, text, n)
  {
    NextMultiple(n, Stride(c));
  }

  /** The chunk is cut from the text at start: with at most the token limit of words as it stands there,
      otherwise its first words. */
  ghost predicate MadeAt(space: Spaces, c: Chunker, documentId: string, text: string, metadata: Metadata,
                         chunk: Chunk, index: nat, start: int)
  {
    && 0 <= start < |text|
    && var window := text[start..Least(start + c.size, |text|)];
    && chunk.text == (if |Words(space, window)| <= c.tokenLimit then window
                      else Join(Words(space, window)[..c.tokenLimit]))
    && chunk == Chunk(documentId + ":" + Decimal(index), documentId, chunk.text, index, |Words(space, chunk.text)|,
                      metadata)
  }

  /** Next to a full chunk one that has all of its window repeats the last overlap characters. */
  ghost predicate Continues(c: Chunker, text: string, chunk: Chunk, next: Chunk, start: int)
  {
    |chunk.text| == c.size && |next.text| == Least(c.size, |text| - start) ==>
      && c.overlap <= c.size && c.overlap <= |next.text|
      && chunk.text[c.size - c.overlap..] == next.text[..c.overlap]
  }

  method ChunkText(space: Spaces, c: Chunker, documentId: string, text: string, metadata: Metadata)
    returns (result: seq<Chunk>)
    requires Valid(c)
    ensures Chunks(space, c, documentId, text, metadata, result)
    ensures |result| == (|text| + (c.size - c.overlap) - 1) / (c.size - c.overlap)
    ensures forall k :: 0 <= k < |result| ==>
              && MadeAt(space, c, documentId, text, metadata, result[k], k, k * (c.size - c.overlap))
              && (k + 1 < |result| ==>
                    Continues(c, text, result[k], result[k + 1], (k + 1) * (c.size - c.overlap)))
  {
    hide Words, Join, MadeAt, Continues, AtStart, Piece, Window, ChunkId;
    result := [];
    var start: nat := 0;
    FirstStart(c, text);
    while start < |text|
      invariant AtStart(c, text, |result|, start)
      invariant forall k :: 0 <= k < |result| ==>
                  && result[k].text == Cut(space, c.tokenLimit, Piece(c, text, k))
                  && result[k] == Chunk(ChunkId(documentId, k), documentId, result[k].text, k,
                                        |Words(space, result[k].text)|, metadata)
      decreases |text| - start
    {
      var value := Window(text, start, c.size);
      NextStart(c, text, |result|, start);
      var words := Words(space, value);
      if |words| > c.tokenLimit {
        value := Join(words[..c.tokenLimit]);
      }
      result := result + [Chunk(ChunkId(documentId, |result|), documentId, value, |result|, |Words(space, value)|,
          metadata)];
      start := start + (c.size - c.overlap);
    }
    LastStart(c, text, |result|, start);
    ChunkCount(space, c, documentId, text, metadata, result);
    forall k | 0 <= k < |result|
      ensures MadeAt(space, c, documentId, text, metadata, result[k], k, k * (c.size - c.overlap))
      ensures k + 1 < |result| ==> Continues(c, text, result[k], result[k + 1], (k + 1) * (c.size - c.overlap))
    {
      ChunkMade(space, c, documentId, text, metadata, result, k);
    }
  }

  function Least(a: int, b: int): int {
    if a <= b then a else b
  }

  /** text[start..start + size], as far as the text goes */
  ghost function Slice(text: string, start: int, size: nat): string
    requires 0 <= start < |text|
  {
    text[start..Least(start + size, |text|)]
  }

  lemma WindowSlice(text: string, start: int, size: nat)
    requires 0 <= start < |text|
    ensures Window(text, start, size) == Slice(text, start, size)
    ensures |Slice(text, start, size)| == Least(size, |text| - start)
  {}

  lemma StartInside(c: Chunker, text: string, n: nat, k: nat)
    requires Valid(c) && Inside(c, text, n) && k < n
    ensures 0 <= k * (c.size - c.overlap) < |text|
    ensures Piece(c, text, k) == Window(text, k * (c.size - c.overlap), c.size)
  {
    WholeSteps(Stride(c), k, n - 1);
    hide Window;
  }

  /** What a chunk holds that is cut from the window at start. */
  lemma ChunkExact(space: Spaces, c: Chunker, documentId: string, text: string, metadata: Metadata,
                   chunk: Chunk, index: nat, start: int)
    requires 0 <= start < |text| && chunk.text == Cut(space, c.tokenLimit, Window(text, start, c.size))
    requires chunk == Chunk(ChunkId(documentId, index), documentId, chunk.text, index,
                            |Words(space, chunk.text)|, metadata)
    ensures MadeAt(space, c, documentId, text, metadata, chunk, index, start)
    ensures |chunk.text| <= Least(c.size, |text| - start)
    ensures |chunk.text| == Least(c.size, |text| - start) ==> chunk.text == Slice(text, start, c.size)
  {
    hide Words, Join, Window;
    WindowSlice(text, start, c.size);
    CutShortens(space, c.tokenLimit, Slice(text, start, c.size));
  }

  /** A full window that is not truncated ends with the characters the next one starts with. */
  lemma SlicesOverlap(text: string, start: nat, size: nat, overlap: nat)
    requires overlap <= size <= |text| - start && start + (size - overlap) < |text|
    ensures overlap <= |Slice(text, start + (size - overlap), size)|
    ensures Slice(text, start, size)[size - overlap..] == Slice(text, start + (size - overlap), size)[..overlap]
  {
    var next := start + (size - overlap);
    assert text[start..start + size][size - overlap..] == text[next..start + size];
    assert text[next..Least(next + size, |text|)][..overlap] == text[next..next + overlap];
  }

  lemma ChunksOverlap(c: Chunker, text: string, chunk: Chunk, next: Chunk, start: int, after: int)
    requires c.overlap < c.size && 0 <= start < |text| && after == start + (c.size - c.overlap) < |text|
    requires |chunk.text| <= Least(c.size, |text| - start)
    requires |chunk.text| == Least(c.size, |text| - start) ==> chunk.text == Slice(text, start, c.size)
    requires |next.text| == Least(c.size, |text| - after) ==> next.text == Slice(text, after, c.size)
    ensures Continues(c, text, chunk, next, after)
  {
    hide Slice;
    if c.size <= |text| - start {
      SlicesOverlap(text, start, c.size, c.overlap);
    }
  }

  lemma ChunkMade(space: Spaces, c: Chunker, documentId: string, text: string, metadata: Metadata,
                  chunks: seq<Chunk>, k: nat)
    requires Valid(c) && Chunks(space, c, documentId, text, metadata, chunks) && k < |chunks|
    ensures MadeAt(space, c, documentId, text, metadata, chunks[k], k, k * (c.size - c.overlap))
    ensures k + 1 < |chunks| ==> Continues(c, text, chunks[k], chunks[k + 1], (k + 1) * (c.size - c.overlap))
  {
    hide Words, Join, Inside, Piece, Window, Cut, Slice, MadeAt, Continues, ChunkId;
    StartInside(c, text, |chunks|, k);
    ChunkExact(space, c, documentId, text, metadata, chunks[k], k, k * (c.size - c.overlap));
    if k + 1 < |chunks| {
      StartInside(c, text, |chunks|, k + 1);
      ChunkExact(space, c, documentId, text, metadata, chunks[k + 1], k + 1, (k + 1) * (c.size - c.overlap));
      NextMultiple(k, c.size - c.overlap);
      ChunksOverlap(c, text, chunks[k], chunks[k + 1], k * (c.size - c.overlap), (k + 1) * (c.size - c.overlap));
    }
  }

  lemma FirstStart(c: Chunker, text: string)
    requires Valid(c)
    ensures AtStart(c, text, 0, 0)
  {
    assert 0 * Stride(c) == 0;
  }

  lemma LastStart(c: Chunker, text: string, n: nat, start: nat)
    requires Valid(c) && AtStart(c, text, n, start) && start >= |text|
    ensures (n == 0 <==> text == "") && |text| <= n * Stride(c) && Inside(c, text, n)
  {
    if n == 0 {
      assert 0 * Stride(c) == 0;
    } else {
      WholeSteps(Stride(c), 0, n);
    }
  }

  /** The number of chunks is the text length divided by the stride, rounded up. */
  lemma ChunkCount(space: Spaces, c: Chunker, documentId: string, text: string, metadata: Metadata, chunks: seq<Chunk>)
    requires Valid(c) && Chunks(space, c, documentId, text, metadata, chunks)
    ensures |chunks| == Ceiling(|text|, c.size - c.overlap)
  {
    CeilingBounds(|text|, Stride(c), |chunks|);
  }

  function Take(s: string, n: nat): string {
    if |s| <= n then s else s[..n]
  }

  /** The first stride characters of each chunk, joined. */
  function Rebuilt(chunks: seq<Chunk>, stride: nat): string {
    if chunks == [] then ""
    else Rebuilt(chunks[..|chunks| - 1], stride) + Take(chunks[|chunks| - 1].text, stride)
  }

  /** The text up to the start of the n-th window. */
  function Before(c: Chunker, text: string, n: nat): string
    requires Valid(c)
  {
    Take(text, n * Stride(c))
  }

  lemma NextPiece(c: Chunker, text: string, n: nat)
    requires Valid(c) && Inside(c, text, n + 1)
    ensures Inside(c, text, n)
    ensures Before(c, text, n + 1) == Before(c, text, n) + Take(Piece(c, text, n), Stride(c))
  {
    NextMultiple(n, Stride(c));
    if n > 0 {
      NextMultiple(n - 1, Stride(c));
    }
    OneMoreWindow(text, n * Stride(c), c.size, Stride(c));
  }

  lemma NoPiece(c: Chunker, text: string)
    requires Valid(c)
    ensures Before(c, text, 0) == ""
  {
    assert 0 * Stride(c) == 0;
  }

  /** The start of the chunk's text that counts for rebuilding is the window's. */
  ghost predicate KeepsStride(space: Spaces, c: Chunker, window: string)
    requires Valid(c)
  {
    Take(Cut(space, c.tokenLimit, window), Stride(c)) == Take(window, Stride(c))
  }

  /** No gain in one chunk makes up for a loss in another. */
  lemma {:induction false} RebuiltPrefix(space: Spaces, c: Chunker, text: string, chunks: seq<Chunk>)
    requires Valid(c) && Inside(c, text, |chunks|)
    requires forall k :: 0 <= k < |chunks| ==> chunks[k].text == Cut(space, c.tokenLimit, Piece(c, text, k))
    ensures |Rebuilt(chunks, Stride(c))| <= |Before(c, text, |chunks|)|
    ensures Rebuilt(chunks, Stride(c)) == Before(c, text, |chunks|) <==>
            forall k :: 0 <= k < |chunks| ==> KeepsStride(space, c, Piece(c, text, k))
    decreases |chunks|
  {
    hide Piece, Before, Inside, Take, Cut;
    if chunks == [] {
      NoPiece(c, text);
    } else {
      var n, s := |chunks| - 1, Stride(c);
      NextPiece(c, text, n);
      RebuiltPrefix(space, c, text, chunks[..n]);
      CutShortens(space, c.tokenLimit, Piece(c, text, n));
      TakeShorter(chunks[n].text, Piece(c, text, n), s);
      EqualParts(Rebuilt(chunks[..n], s), Take(chunks[n].text, s), Before(c, text, n), Take(Piece(c, text, n), s));
    }
  }

  lemma TakeShorter(a: string, b: string, n: nat)
    requires |a| <= |b|
    ensures |Take(a, n)| <= |Take(b, n)|
  {}

  lemma EqualParts(a: string, b: string, c: string, d: string)
    requires |a| <= |c| && |b| <= |d|
    ensures a + b == c + d <==> a == c && b == d
  {
    if a + b == c + d {
      assert |a + b| == |c + d|;
      assert (a + b)[..|a|] == a && (c + d)[..|a|] == c;
      assert (a + b)[|a|..] == b && (c + d)[|a|..] == d;
    }
  }

  lemma OneMoreWindow(text: string, start: nat, size: nat, stride: nat)
    requires stride <= size && start < |text|
    ensures Take(text, start) + Take(Window(text, start, size), stride) == Take(text, start + stride)
  {
    if start + stride <= |text| {
      assert Take(Window(text, start, size), stride) == text[start..start + stride];
      assert text[..start] + text[start..start + stride] == text[..start + stride];
    } else {
      assert Take(Window(text, start, size), stride) == text[start..];
      assert text[..start] + text[start..] == text;
    }
  }

  /** No window has more words than the token limit allows. */
  ghost predicate Untruncated(space: Spaces, c: Chunker, text: string)
    requires Valid(c)
  {
    forall k: nat :: |Words(space, Piece(c, text, k))| <= c.tokenLimit
  }

  // ---------- which windows keep their stride ----------

  /** Every space is a single ' '. */
  ghost predicate SingleGaps(space: Spaces, p: string) {
    && (forall i :: 0 <= i < |p| && space(p[i]) ==> p[i] == ' ')
    && (forall i, j :: 0 <= i && j == i + 1 && j < |p| && space(p[i]) ==> !space(p[j]))
  }

  ghost predicate Tidy(space: Spaces, p: string) {
    p != "" && !space(p[0]) && SingleGaps(space, p)
  }

  function Gaps(space: Spaces, p: string): nat {
    if p == "" then 0 else Gaps(space, p[1..]) + if space(p[0]) then 1 else 0
  }

  /** What the text of a window must look like for its chunk to start with the window's stride. */
  ghost predicate Legible(space: Spaces, c: Chunker, window: string)
    requires Valid(c)
  {
    || |Words(space, window)| <= c.tokenLimit
    || (|window| > Stride(c) && var start := window[..Stride(c)];
        Tidy(space, start) && Gaps(space, start) <= c.tokenLimit - 1)
  }

  lemma JoinStarts(space: Spaces, words: seq<string>)
    requires words != [] && forall w :: w in words ==> IsWord(space, w)
    ensures Join(words) != "" && !space(Join(words)[0])
  {
    assert words[0] in words;
  }

  lemma JoinHead(x: char, word: string, more: seq<string>)
    ensures Join([[x] + word] + more) == [x] + Join([word] + more)
  {
    assert ([[x] + word] + more)[1..] == more && ([word] + more)[1..] == more;
  }

  lemma ConsGaps(space: Spaces, x: char, p: string)
    ensures SingleGaps(space, [x] + p) <==>
            SingleGaps(space, p) && (space(x) ==> x == ' ' && (p == "" || !space(p[0])))
    ensures Gaps(space, [x] + p) == Gaps(space, p) + if space(x) then 1 else 0
  {
    var r := [x] + p;
    assert r[0] == x && r[1..] == p;
    assert forall i :: 0 <= i < |p| ==> r[i + 1] == p[i];
  }

  lemma TidyWord(space: Spaces, x: char, p: string)
    requires !space(x) && p != "" && !space(p[0])
    ensures Tidy(space, [x] + p) <==> Tidy(space, p)
    ensures Gaps(space, [x] + p) == Gaps(space, p)
  {
    hide SingleGaps, Gaps;
    ConsGaps(space, x, p);
  }

  lemma TidyGap(space: Spaces, x: char, y: char, p: string)
    requires !space(x) && space(y)
    ensures Tidy(space, [x, y] + p) <==> y == ' ' && (p == "" || Tidy(space, p))
    ensures Gaps(space, [x, y] + p) == 1 + Gaps(space, p)
  {
    if p == "" {
      assert SingleGaps(space, p);
    }
    hide SingleGaps, Gaps;
    assert [x, y] + p == [x] + ([y] + p);
    ConsGaps(space, y, p);
    ConsGaps(space, x, [y] + p);
  }

  /** The first words joined agree with the first n characters exactly when these are tidy and hold
      fewer spaces than there are words taken. */
  ghost predicate Agrees(space: Spaces, w: string, n: nat, limit: nat)
    requires 1 <= n <= |w| && 1 <= limit <= |Words(space, w)|
  {
    Take(Join(Words(space, w)[..limit]), n) == w[..n] <==> Tidy(space, w[..n]) && Gaps(space, w[..n]) <= limit - 1
  }

  lemma {:induction false} JoinAgrees(space: Spaces, w: string, n: nat, limit: nat)
    requires space(' ') && 1 <= n < |w| && 1 <= limit < |Words(space, w)|
    ensures Agrees(space, w, n, limit)
    decreases |w|
  {
    var x, t := w[0], w[1..];
    assert w == [x] + t;
    WordsCons(space, x, t);
    if space(x) {
      WordsAreWords(space, w);
      JoinStarts(space, Words(space, w)[..limit]);
      assert w[..n][0] == x;
    } else if !space(t[0]) {
      hide Agrees;
      if n > 1 { JoinAgrees(space, t, n - 1, limit); }
      InsideWord(space, x, t, n, limit);
    } else {
      hide Agrees;
      GapWords(space, x, t);
      if n > 2 && limit > 1 { JoinAgrees(space, t[1..], n - 2, limit - 1); }
      AcrossGap(space, x, t, n, limit);
    }
  }

  lemma InsideWord(space: Spaces, x: char, t: string, n: nat, limit: nat)
    requires !space(x) && t != "" && !space(t[0])
    requires 1 <= n <= |t| && 1 <= limit < |Words(space, t)| && |Words(space, [x] + t)| == |Words(space, t)|
    requires Words(space, [x] + t) == [[x] + Words(space, t)[0]] + Words(space, t)[1..]
    requires n > 1 ==> Agrees(space, t, n - 1, limit)
    ensures Agrees(space, [x] + t, n, limit)
  {
    WordJoin(x, Words(space, t), limit);
    WordPrefix(x, t, n);
    hide Words, Join, Take, Tidy, Gaps;
    var joined := Join(Words(space, t)[..limit]);
    assert Join(Words(space, [x] + t)[..limit]) == [x] + joined;
    if n == 1 {
      OneCharacter(space, x, [x] + joined);
    } else {
      WordTaken(space, x, joined, t[..n - 1], limit);
    }
  }

  lemma WordJoin(x: char, words: seq<string>, limit: nat)
    requires 1 <= limit <= |words|
    ensures Join(([[x] + words[0]] + words[1..])[..limit]) == [x] + Join(words[..limit])
  {
    assert ([[x] + words[0]] + words[1..])[..limit] == [[x] + words[0]] + words[1..limit];
    assert words[..limit] == [words[0]] + words[1..limit];
    JoinHead(x, words[0], words[1..limit]);
  }

  lemma WordPrefix(x: char, t: string, n: nat)
    requires 1 <= n <= |t|
    ensures ([x] + t)[..n] == if n == 1 then [x] else [x] + t[..n - 1]
  {}

  lemma WordTaken(space: Spaces, x: char, s: string, q: string, limit: nat)
    requires !space(x) && q != "" && !space(q[0]) && limit >= 1
    requires Take(s, |q|) == q <==> Tidy(space, q) && Gaps(space, q) <= limit - 1
    ensures Take([x] + s, |q| + 1) == [x] + q <==> Tidy(space, [x] + q) && Gaps(space, [x] + q) <= limit - 1
  {
    TidyWord(space, x, q);
    TakeCons(x, s, |q| + 1);
    ConsEqual(x, Take(s, |q|), q);
    hide Tidy, Gaps, Take;
  }

  lemma TakeCons(x: char, s: string, n: nat)
    requires n >= 1
    ensures Take([x] + s, n) == [x] + Take(s, n - 1)
  {}

  lemma ConsEqual(x: char, a: string, b: string)
    ensures [x] + a == [x] + b <==> a == b
  {
    if [x] + a == [x] + b {
      assert ([x] + a)[1..] == a && ([x] + b)[1..] == b;
    }
  }

  lemma AcrossGap(space: Spaces, x: char, t: string, n: nat, limit: nat)
    requires !space(x) && t != "" && space(t[0])
    requires 1 <= n <= |t| && 1 <= limit <= |Words(space, t)|
    requires Words(space, [x] + t) == [[x]] + Words(space, t) && Words(space, t) == Words(space, t[1..])
    requires n > 2 && limit > 1 ==> Agrees(space, t[1..], n - 2, limit - 1)
    ensures Agrees(space, [x] + t, n, limit)
  {
    GapJoin(space, x, t, limit);
    GapPrefix(x, t, n);
    hide Words, Join, Take, Tidy, Gaps;
    if n == 1 {
      OneCharacter(space, x, Join(Words(space, [x] + t)[..limit]));
    } else if limit == 1 {
      GapMissing(space, x, t[0], t[1..][..n - 2]);
    } else {
      GapTaken(space, x, t[0], Join(Words(space, t[1..])[..limit - 1]), t[1..][..n - 2], limit);
    }
  }

  lemma GapPrefix(x: char, t: string, n: nat)
    requires 1 <= n <= |t|
    ensures ([x] + t)[..n] == if n == 1 then [x] else [x, t[0]] + t[1..][..n - 2]
  {}

  lemma OneCharacter(space: Spaces, x: char, s: string)
    requires !space(x) && s != "" && s[0] == x
    ensures Take(s, 1) == [x] && Tidy(space, [x]) && Gaps(space, [x]) == 0
  {
    assert Gaps(space, [x][1..]) == 0;
  }

  lemma GapMissing(space: Spaces, x: char, y: char, q: string)
    requires !space(x) && space(y)
    ensures Take([x], |q| + 2) != [x, y] + q && Gaps(space, [x, y] + q) > 0
  {
    TidyGap(space, x, y, q);
    assert |[x, y] + q| == |q| + 2;
  }

  lemma GapTaken(space: Spaces, x: char, y: char, s: string, q: string, limit: nat)
    requires !space(x) && space(y) && limit >= 2
    requires q == "" || (Take(s, |q|) == q <==> Tidy(space, q) && Gaps(space, q) <= limit - 2)
    ensures Take([x] + ([' '] + s), |q| + 2) == [x, y] + q <==>
            Tidy(space, [x, y] + q) && Gaps(space, [x, y] + q) <= limit - 1
  {
    TidyGap(space, x, y, q);
    GapAgrees(space, x, y, s, q, |q| + 2);
    assert q == "" ==> Gaps(space, q) == 0 && Take(s, 0) == q;
    hide Tidy, Gaps, Take;
  }

  lemma GapWords(space: Spaces, x: char, t: string)
    requires t != "" && space(t[0])
    ensures Words(space, t) == Words(space, t[1..])
  {
    assert t == [t[0]] + t[1..];
    WordsCons(space, t[0], t[1..]);
  }

  lemma GapJoin(space: Spaces, x: char, t: string, limit: nat)
    requires t != "" && 1 <= limit <= |Words(space, t)|
    requires Words(space, [x] + t) == [[x]] + Words(space, t) && Words(space, t) == Words(space, t[1..])
    ensures Join(Words(space, [x] + t)[..limit]) ==
            if limit == 1 then [x] else [x] + ([' '] + Join(Words(space, t[1..])[..limit - 1]))
  {
    hide Words;
    var rest := Words(space, t[1..]);
    assert ([[x]] + rest)[..limit] == [[x]] + rest[..limit - 1];
    GapJoined([x], rest[..limit - 1]);
  }

  lemma GapJoined(word: string, more: seq<string>)
    ensures Join([word] + more) == if more == [] then word else word + ([' '] + Join(more))
  {
    assert ([word] + more)[1..] == more;
  }

  lemma GapAgrees(space: Spaces, x: char, y: char, s: string, q: string, n: nat)
    requires n >= 2 && |q| == n - 2
    ensures Take([x] + ([' '] + s), n) == [x, y] + q <==> y == ' ' && Take(s, n - 2) == q
  {
    TakeCons(x, [' '] + s, n);
    TakeCons(' ', s, n - 1);
    var a, b := [' '] + Take(s, n - 2), [y] + q;
    assert [x, y] + q == [x] + b;
    ConsEqual(x, a, b);
    if y == ' ' {
      ConsEqual(' ', Take(s, n - 2), q);
    } else {
      assert a[0] == ' ' && b[0] == y;
    }
  }

  /** A window keeps its stride exactly when its text is legible. */
  lemma KeepsStrideIff(space: Spaces, c: Chunker, window: string)
    requires space(' ') && Valid(c)
    ensures KeepsStride(space, c, window) <==> Legible(space, c, window)
  {
    var s := Stride(c);
    CutShortens(space, c.tokenLimit, window);
    if |Words(space, window)| > c.tokenLimit {
      if |window| <= s {
        assert Take(window, s) == window;
        TakeShorter(Cut(space, c.tokenLimit, window), Cut(space, c.tokenLimit, window), s);
      } else {
        JoinAgrees(space, window, s, c.tokenLimit);
      }
    }
  }

  /** The chunks' first strides rebuild the text exactly when every window is legible: not
      truncated, or longer than the stride and, within it, tidy text of no more words than the
      token limit. */
  lemma SplitJoinIff(space: Spaces, c: Chunker, documentId: string, text: string, metadata: Metadata,
                     chunks: seq<Chunk>, stride: nat)
    requires space(' ') && Valid(c) && stride == c.size - c.overlap
    requires Chunks(space, c, documentId, text, metadata, chunks)
    ensures Rebuilt(chunks, stride) == text <==>
        forall k :: 0 <= k < |chunks| ==> Legible(space, c, Piece(c, text, k))
  {
    hide KeepsStride, Piece, Legible, Rebuilt, Chunks;
    RebuiltIff(space, c, documentId, text, metadata, chunks);
    assert stride == Stride(c);
    forall k | 0 <= k < |chunks|
      ensures KeepsStride(space, c, Piece(c, text, k)) <==> Legible(space, c, Piece(c, text, k))
    {
      KeepsStrideIff(space, c, Piece(c, text, k));
    }
  }

  lemma RebuiltIff(space: Spaces, c: Chunker, documentId: string, text: string, metadata: Metadata, chunks: seq<Chunk>)
    requires Valid(c) && Chunks(space, c, documentId, text, metadata, chunks)
    ensures Rebuilt(chunks, Stride(c)) == text <==>
            forall k :: 0 <= k < |chunks| ==> KeepsStride(space, c, Piece(c, text, k))
  {
    hide KeepsStride, Piece;
    RebuiltPrefix(space, c, text, chunks);
  }

  /** Round trip: so they do whenever nothing is truncated. */
  lemma SplitJoin(space: Spaces, c: Chunker, documentId: string, text: string, metadata: Metadata, chunks: seq<Chunk>)
    requires Valid(c) && Chunks(space, c, documentId, text, metadata, chunks) && Untruncated(space, c, text)
    ensures Rebuilt(chunks, Stride(c)) == text
  {
    RebuiltIff(space, c, documentId, text, metadata, chunks);
    hide Piece, Words;
  }

  lemma PieceFits(c: Chunker, text: string, k: nat)
    requires Valid(c)
    ensures |Piece(c, text, k)| <= c.size
  {}

  lemma NoMorePieces(space: Spaces, c: Chunker, documentId: string, text: string, metadata: Metadata,
                     chunks: seq<Chunk>, k: nat)
    requires Valid(c) && Chunks(space, c, documentId, text, metadata, chunks) && k >= |chunks|
    ensures Piece(c, text, k) == ""
  {
    WholeSteps(Stride(c), |chunks|, k);
  }

  /** Without overlap there is no slack: a window keeps its stride exactly when it is not truncated. */
  lemma NoSlack(space: Spaces, c: Chunker, text: string, k: nat)
    requires Valid(c) && c.overlap == 0
    ensures KeepsStride(space, c, Piece(c, text, k)) <==> |Words(space, Piece(c, text, k))| <= c.tokenLimit
  {
    PieceFits(c, text, k);
    hide Piece, Words, Cut;
    CutShortens(space, c.tokenLimit, Piece(c, text, k));
  }

  /** So then rebuilding works exactly when nothing is truncated. */
  lemma WithoutOverlapIff(space: Spaces, c: Chunker, documentId: string, text: string, metadata: Metadata,
                          chunks: seq<Chunk>)
    requires Valid(c) && c.overlap == 0 && Chunks(space, c, documentId, text, metadata, chunks)
    ensures Rebuilt(chunks, Stride(c)) == text <==> Untruncated(space, c, text)
  {
    RebuiltIff(space, c, documentId, text, metadata, chunks);
    hide Piece, KeepsStride, Rebuilt, Chunks;
    if forall k :: 0 <= k < |chunks| ==> KeepsStride(space, c, Piece(c, text, k)) {
      forall k: nat ensures |Words(space, Piece(c, text, k))| <= c.tokenLimit {
        if k < |chunks| {
          NoSlack(space, c, text, k);
        } else {
          NoMorePieces(space, c, documentId, text, metadata, chunks, k);
        }
      }
    }
    if Untruncated(space, c, text) {
      forall k | 0 <= k < |chunks| ensures KeepsStride(space, c, Piece(c, text, k)) {
        NoSlack(space, c, text, k);
      }
    }
  }

  /** A chunk never holds more words than the token limit, truncated or not. */
  lemma TokensWithinLimit(space: Spaces, c: Chunker, documentId: string, text: string, metadata: Metadata,
                          chunks: seq<Chunk>, k: nat)
    requires space(' ') && Valid(c) && Chunks(space, c, documentId, text, metadata, chunks) && k < |chunks|
    ensures chunks[k].tokens <= c.tokenLimit
  {
    hide Piece;
    var words := Words(space, Piece(c, text, k));
    WordsAreWords(space, Piece(c, text, k));
    if |words| > c.tokenLimit {
      WordsOfJoin(space, words[..c.tokenLimit]);
    }
  }

  /** A size within the token limit never truncates, whatever the text. */
  lemma SmallWindowsUntruncated(space: Spaces, c: Chunker, text: string)
    requires Valid(c) && c.size <= c.tokenLimit
    ensures Untruncated(space, c, text)
  {
    forall k: nat ensures |Words(space, Piece(c, text, k))| <= c.tokenLimit {
      PieceFits(c, text, k);
    }
  }

  /** Truncation can lose text: with a limit of one word, "a b" keeps only its first. */
  lemma TruncationLoses(space: Spaces)
    requires space(' ') && !space('a') && !space('b')
    ensures var c := Chunker(3, 0, 1);
            Valid(c) && Cut(space, c.tokenLimit, Window("a b", 0, c.size)) == "a"
            && forall chunks :: Chunks(space, c, "d", "a b", map[], chunks) ==> Rebuilt(chunks, Stride(c)) != "a b"
  {
    var c := Chunker(3, 0, 1);
    var t := "a b";
    assert t[1..] == " b" && t[1..][1..] == "b";
    assert Words(space, "b") == ["b"];
    assert Words(space, " b") == ["b"];
    assert Words(space, t) == ["a", "b"];
    assert ["a", "b"][..1] == ["a"];
    assert Window(t, 0, 3) == t;
    forall chunks: seq<Chunk> | Chunks(space, c, "d", t, map[], chunks) ensures Rebuilt(chunks, Stride(c)) != t {
      assert |chunks| == 1 && chunks[0].text == "a";
      assert chunks[..0] == [];
      assert |Rebuilt(chunks, Stride(c))| == 1;
    }
  }
}
