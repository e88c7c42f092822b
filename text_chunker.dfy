/**
 * The paragraph-aware chunker `simple_chunker` (text_chunker.py).
 *
 * The text is cut at blank lines into stripped, non-empty paragraphs; they are
 * joined greedily with single spaces into a buffer while the buffer stays under
 * `chunkSize`; a buffer or paragraph longer than `chunkSize` is cut into
 * windows of `chunkSize` characters taken every `chunkSize - chunkOverlap`
 * characters; finally chunks that are only whitespace are dropped.
 *
 * `SimpleChunker` is the loop as written; `Chunk` is the same computation as a
 * fold over the paragraphs (`Step`), which the lemmas below reason about.
 */
module TextChunker {
  import opened Strings

  /** Python's `[p.strip() for p in parts if p.strip()]`. */
  function KeepStripped(parts: seq<string>): (ps: seq<string>)
    ensures |ps| <= |parts|
  {
    if parts == [] then []
    else (if Strip(parts[0]) != "" then [Strip(parts[0])] else []) + KeepStripped(parts[1..])
  }

  /** What survives is stripped and non-empty. */
  lemma {:induction false} KeepStrippedStripped(parts: seq<string>)
    ensures forall i :: 0 <= i < |KeepStripped(parts)| ==> IsStripped(KeepStripped(parts)[i])
    decreases |parts|
  {
    if parts != [] {
      KeepStrippedStripped(parts[1..]);
      var head := if Strip(parts[0]) != "" then [Strip(parts[0])] else [];
      var tail := KeepStripped(parts[1..]);
      var ks := KeepStripped(parts);
      assert ks == head + tail;
      forall i | 0 <= i < |ks| ensures IsStripped(ks[i]) {
        if i >= |head| {
          assert ks[i] == tail[i - |head|];
        } else {
          assert ks[i] == Strip(parts[0]);
        }
      }
    }
  }

  /** Nothing survives exactly when every part is blank. */
  lemma {:induction false} KeepStrippedEmpty(parts: seq<string>)
    ensures KeepStripped(parts) == [] <==> AllBlank(parts)
    decreases |parts|
  {
    if parts != [] {
      KeepStrippedEmpty(parts[1..]);
      if AllBlank(parts[1..]) && IsBlank(parts[0]) {
        forall k | 0 <= k < |parts| ensures IsBlank(parts[k]) { if k > 0 { assert parts[k] == parts[1..][k - 1]; } }
      }
      if AllBlank(parts) {
        forall k | 0 <= k < |parts[1..]| ensures IsBlank(parts[1..][k]) { assert parts[1..][k] == parts[k + 1]; }
      }
    }
  }

  /** The paragraphs of a text: the stripped, non-empty pieces between blank lines. */
  function Paragraphs(text: string): seq<string>
  {
    KeepStripped(SplitOnBlankLines(text))
  }

  /** Every paragraph is stripped and non-empty, and there are none exactly when the text is blank. */
  lemma ParagraphsStripped(text: string)
    ensures forall i :: 0 <= i < |Paragraphs(text)| ==> IsStripped(Paragraphs(text)[i])
    ensures Paragraphs(text) == [] <==> IsBlank(text)
  {
    SplitBlank(text);
    KeepStrippedStripped(SplitOnBlankLines(text));
    KeepStrippedEmpty(SplitOnBlankLines(text));
  }

  /** Python's `[c for c in chunks if c.strip()]`. */
  function DropBlank(chunks: seq<string>): (r: seq<string>)
    ensures |r| <= |chunks|
  {
    if chunks == [] then []
    else (if Strip(chunks[0]) != "" then [chunks[0]] else []) + DropBlank(chunks[1..])
  }

  /** Every string in the list is at most `size` long. */
  predicate WithinSize(cs: seq<string>, size: nat) {
    forall i :: 0 <= i < |cs| ==> |cs[i]| <= size
  }

  /** Every chunk holds some non-whitespace and is at most `size` long. */
  predicate ChunksFit(cs: seq<string>, size: nat) {
    forall i :: 0 <= i < |cs| ==> 0 < |cs[i]| <= size && !IsBlank(cs[i])
  }

  /** The filter keeps exactly the chunks that are not blank. */
  lemma {:induction false} DropBlankMembers(chunks: seq<string>)
    ensures forall c :: c in DropBlank(chunks) <==> c in chunks && !IsBlank(c)
    decreases |chunks|
  {
    if chunks != [] {
      DropBlankMembers(chunks[1..]);
      assert chunks == [chunks[0]] + chunks[1..];
    }
  }

  /** A list with no blank chunk passes the filter unchanged. */
  lemma {:induction false} DropBlankUnchanged(chunks: seq<string>)
    requires forall i :: 0 <= i < |chunks| ==> !IsBlank(chunks[i])
    ensures DropBlank(chunks) == chunks
    decreases |chunks|
  {
    if chunks != [] {
      DropBlankUnchanged(chunks[1..]);
      assert chunks == [chunks[0]] + chunks[1..];
    }
  }

  /** What passes the filter is non-empty, not blank, and no longer than the longest input. */
  lemma {:induction false} DropBlankBounded(chunks: seq<string>, size: nat)
    requires WithinSize(chunks, size)
    ensures ChunksFit(DropBlank(chunks), size)
    decreases |chunks|
  {
    if chunks != [] {
      DropBlankBounded(chunks[1..], size);
      var head := if Strip(chunks[0]) != "" then [chunks[0]] else [];
      var tail := DropBlank(chunks[1..]);
      var r := DropBlank(chunks);
      assert r == head + tail;
      forall i | 0 <= i < |r| ensures 0 < |r[i]| <= size && !IsBlank(r[i]) {
        if i >= |head| { assert r[i] == tail[i - |head|]; } else { assert r[i] == chunks[0]; }
      }
    }
  }

  /** A chunk that is not blank makes the filtered list non-empty. */
  lemma {:induction false} DropBlankNonEmpty(chunks: seq<string>, i: nat)
    requires i < |chunks| && !IsBlank(chunks[i])
    ensures DropBlank(chunks) != []
    decreases i
  {
    if i > 0 && Strip(chunks[0]) == "" {
      DropBlankNonEmpty(chunks[1..], i - 1);
    }
  }

  /** The hard-split windows `s[i:i + size]` for `i` in `range(start, len(s), stride)`. */
  function WindowsFrom(s: string, start: nat, size: nat, stride: nat): (ws: seq<string>)
    requires stride > 0
    decreases |s| - start
  {
    if start >= |s| then []
    else [s[start..Min(start + size, |s|)]] + WindowsFrom(s, start + stride, size, stride)
  }

  function Windows(s: string, size: nat, stride: nat): seq<string>
    requires stride > 0
  {
    WindowsFrom(s, 0, size, stride)
  }

  /** No window is longer than `size`. */
  lemma {:induction false} WindowsBounded(s: string, start: nat, size: nat, stride: nat)
    requires stride > 0
    ensures WithinSize(WindowsFrom(s, start, size, stride), size)
    decreases |s| - start
  {
    if start < |s| {
      WindowsBounded(s, start + stride, size, stride);
      var ws := WindowsFrom(s, start, size, stride);
      var tail := WindowsFrom(s, start + stride, size, stride);
      forall i | 0 <= i < |ws| ensures |ws[i]| <= size {
        if i > 0 { assert ws[i] == tail[i - 1]; }
      }
    }
  }

  /** The k-th window starts k strides after the first. */
  lemma {:induction false} WindowsFromAt(s: string, start: nat, size: nat, stride: nat, k: nat)
    requires stride > 0 && k < |WindowsFrom(s, start, size, stride)|
    ensures start + k * stride < |s|
    ensures WindowsFrom(s, start, size, stride)[k] == s[start + k * stride..Min(start + k * stride + size, |s|)]
    decreases k
  {
    if k > 0 {
      WindowsFromAt(s, start + stride, size, stride, k - 1);
      assert start + stride + (k - 1) * stride == start + k * stride;
    }
  }

  /** The windows reach the end of the text: one more stride would start past it. */
  lemma {:induction false} WindowsFromCount(s: string, start: nat, size: nat, stride: nat)
    requires stride > 0
    ensures start + |WindowsFrom(s, start, size, stride)| * stride >= |s|
    decreases |s| - start
  {
    if start < |s| {
      var n := |WindowsFrom(s, start + stride, size, stride)|;
      WindowsFromCount(s, start + stride, size, stride);
      assert start + (n + 1) * stride == start + stride + n * stride;
    }
  }

  /** Hard split layout: window k is `s[k*stride .. k*stride + size]` (clipped at the end),
      every window starts inside the text, and there are just enough windows to
      reach its end, that is ceil(|s| / stride) of them. */
  lemma WindowsLayout(s: string, size: nat, stride: nat)
    requires stride > 0
    ensures var ws := Windows(s, size, stride);
      && |ws| * stride >= |s|
      && forall k :: 0 <= k < |ws| ==> k * stride < |s| && ws[k] == s[k * stride..Min(k * stride + size, |s|)]
  {
    WindowsFromCount(s, 0, size, stride);
    forall k | 0 <= k < |Windows(s, size, stride)|
      ensures k * stride < |s| && Windows(s, size, stride)[k] == s[k * stride..Min(k * stride + size, |s|)]
    {
      WindowsFromAt(s, 0, size, stride, k);
    }
  }

  /** 2500 characters at size 1000 and overlap 150 give three windows, starting at 0, 850 and 1700. */
  lemma HardSplitExample(s: string)
    requires |s| == 2500
    ensures Windows(s, 1000, 850) == [s[0..1000], s[850..1850], s[1700..2500]]
  {
    var ws := Windows(s, 1000, 850);
    WindowsLayout(s, 1000, 850);
    assert |ws| >= 3;
    assert (|ws| - 1) * 850 < 2500;
  }

  /** The state of the paragraph loop: `all_chunks` and `current_chunk`. */
  datatype Buffer = Buffer(chunks: seq<string>, current: string)

  /** Emitting a non-empty buffer: hard-split when oversized, else as one chunk. */
  function Flush(current: string, size: nat, stride: nat): seq<string>
    requires stride > 0
  {
    if |current| > size then Windows(current, size, stride) else [current]
  }

  /** One iteration of the paragraph loop. */
  function Step(b: Buffer, p: string, size: nat, stride: nat): Buffer
    requires stride > 0
  {
    if |b.current| + |p| + 1 < size then
      Buffer(b.chunks, b.current + (if b.current != "" then " " else "") + p)
    else
      var flushed := Finish(b, size, stride);
      if |p| > size then Buffer(flushed + Windows(p, size, stride), "") else Buffer(flushed, p)
  }

  /** The chunks after the last paragraph: the remaining buffer, if any, is flushed. */
  function Finish(b: Buffer, size: nat, stride: nat): seq<string>
    requires stride > 0
  {
    if b.current != "" then b.chunks + Flush(b.current, size, stride) else b.chunks
  }

  /** The loop state after the given paragraphs. */
  function Accumulate(ps: seq<string>, size: nat, stride: nat): Buffer
    requires stride > 0
  {
    if ps == [] then Buffer([], "")
    else Step(Accumulate(ps[..|ps| - 1], size, stride), ps[|ps| - 1], size, stride)
  }

  /** The chunks made from a list of paragraphs: the fold, the final flush, and the blank filter. */
  function ChunkParagraphs(ps: seq<string>, size: nat, stride: nat): seq<string>
    requires stride > 0
  {
    DropBlank(Finish(Accumulate(ps, size, stride), size, stride))
  }

  /** What `simple_chunker(text, chunkSize, chunkOverlap)` returns. The source returns
      `[]` early for empty text; `EmptyTextChunk` shows the general case agrees. */
  function Chunk(text: string, chunkSize: nat, chunkOverlap: int): seq<string>
    requires chunkOverlap < chunkSize
  {
    ChunkParagraphs(Paragraphs(text), chunkSize, chunkSize - chunkOverlap)
  }

  /** The empty text has no paragraphs and so no chunks. */
  lemma EmptyTextChunk(chunkSize: nat, chunkOverlap: int)
    requires chunkOverlap < chunkSize
    ensures Chunk("", chunkSize, chunkOverlap) == []
  {
    assert SplitOnBlankLines("") == [""];
    assert Paragraphs("") == [];
  }

  /** The hard split `for i in range(0, len(s), stride): out.append(s[i:i + size])`. */
  method HardSplit(s: string, size: nat, stride: nat) returns (windows: seq<string>)
    requires stride > 0
    ensures windows == Windows(s, size, stride)
  {
    windows := [];
    var i := 0;
    while i < |s|
      invariant windows + WindowsFrom(s, i, size, stride) == Windows(s, size, stride)
      decreases |s| - i
    {
      windows := windows + [s[i..Min(i + size, |s|)]];
      i := i + stride;
    }
  }

  /** The paragraph loop of `simple_chunker`: greedy joining, flushing and hard splits
      (text_chunker.py:12-29); returns `all_chunks` and `current_chunk` after the last paragraph. */
  method AccumulateParagraphs(paragraphs: seq<string>, chunkSize: nat, stride: nat)
    returns (allChunks: seq<string>, current: string)
    requires stride > 0
    ensures Buffer(allChunks, current) == Accumulate(paragraphs, chunkSize, stride)
  {
    allChunks, current := [], "";
    for j := 0 to |paragraphs|
      invariant Buffer(allChunks, current) == Accumulate(paragraphs[..j], chunkSize, stride)
    {
      var paragraph := paragraphs[j];
      ghost var before := Buffer(allChunks, current);
      if |current| + |paragraph| + 1 < chunkSize {
        current := current + (if current != "" then " " else "") + paragraph;
      } else {
        if current != "" {
          if |current| > chunkSize {
            var windows := HardSplit(current, chunkSize, stride);
            allChunks := allChunks + windows;
          } else {
            allChunks := allChunks + [current];
          }
          current := paragraph;
        } else {
          current := paragraph;
        }
        if |current| > chunkSize {
          var windows := HardSplit(current, chunkSize, stride);
          allChunks := allChunks + windows;
          current := "";
        }
      }
      assert Buffer(allChunks, current) == Step(before, paragraph, chunkSize, stride);
      assert paragraphs[..j + 1][..j] == paragraphs[..j];
    }
    assert paragraphs[..|paragraphs|] == paragraphs;
  }

  /** After the loop: a non-empty buffer is emitted, hard-split when oversized
      (text_chunker.py:31-35). */
  method FlushLast(allChunks: seq<string>, current: string, chunkSize: nat, stride: nat)
    returns (chunks: seq<string>)
    requires stride > 0
    ensures chunks == Finish(Buffer(allChunks, current), chunkSize, stride)
  {
    chunks := allChunks;
    if current != "" {
      if |current| > chunkSize {
        var windows := HardSplit(current, chunkSize, stride);
        chunks := chunks + windows;
      } else {
        chunks := chunks + [current];
      }
    }
  }

  /** `simple_chunker`. The stride `chunkSize - chunkOverlap` must be positive:
      zero makes `range` raise, and a negative one silently drops oversized text. */
  method SimpleChunker(text: string, chunkSize: nat, chunkOverlap: int) returns (chunks: seq<string>)
    requires chunkOverlap < chunkSize
    ensures chunks == Chunk(text, chunkSize, chunkOverlap)
    ensures ChunksFit(chunks, chunkSize)
  {
    if text == "" {
      chunks := [];
      EmptyTextChunk(chunkSize, chunkOverlap);
    } else {
      chunks := ChunkParagraphList(Paragraphs(text), chunkSize, chunkSize - chunkOverlap);
    }
  }

  /** The body of `simple_chunker` after the empty-text check, given the paragraphs:
      the loop, the final flush and the blank filter (text_chunker.py:11-38). */
  method ChunkParagraphList(paragraphs: seq<string>, chunkSize: nat, stride: nat) returns (chunks: seq<string>)
    requires stride > 0
    ensures chunks == ChunkParagraphs(paragraphs, chunkSize, stride)
    ensures ChunksFit(chunks, chunkSize)
  {
    var allChunks, current := AccumulateParagraphs(paragraphs, chunkSize, stride);
    allChunks := FlushLast(allChunks, current, chunkSize, stride);
    chunks := DropBlank(allChunks);
    ChunkParagraphsBounded(paragraphs, chunkSize, stride);
  }

  /** Appending lists within `size` stays within `size`. */
  lemma WithinSizeConcat(a: seq<string>, b: seq<string>, size: nat)
    requires WithinSize(a, size) && WithinSize(b, size)
    ensures WithinSize(a + b, size)
  {
    forall i | 0 <= i < |a + b| ensures |(a + b)[i]| <= size {
      if i >= |a| { assert (a + b)[i] == b[i - |a|]; }
    }
  }

  /** Flushing a buffer no longer than `size`, or hard-splitting, emits chunks within `size`. */
  lemma FinishBounded(b: Buffer, size: nat, stride: nat)
    requires stride > 0 && WithinSize(b.chunks, size)
    ensures WithinSize(Finish(b, size, stride), size)
  {
    if b.current != "" {
      WindowsBounded(b.current, 0, size, stride);
      WithinSizeConcat(b.chunks, Flush(b.current, size, stride), size);
    }
  }

  /** The buffer never exceeds `size`, and neither does any chunk emitted so far. */
  lemma {:induction false} AccumulateBounded(ps: seq<string>, size: nat, stride: nat)
    requires stride > 0
    ensures |Accumulate(ps, size, stride).current| <= size
    ensures WithinSize(Accumulate(ps, size, stride).chunks, size)
    decreases |ps|
  {
    if ps != [] {
      var b0, p := Accumulate(ps[..|ps| - 1], size, stride), ps[|ps| - 1];
      AccumulateBounded(ps[..|ps| - 1], size, stride);
      FinishBounded(b0, size, stride);
      WindowsBounded(p, 0, size, stride);
      WithinSizeConcat(Finish(b0, size, stride), Windows(p, size, stride), size);
    }
  }

  /** Every chunk made from paragraphs is non-empty, at most `size` long and not blank. */
  lemma ChunkParagraphsBounded(ps: seq<string>, size: nat, stride: nat)
    requires stride > 0
    ensures ChunksFit(ChunkParagraphs(ps, size, stride), size)
  {
    var b := Accumulate(ps, size, stride);
    AccumulateBounded(ps, size, stride);
    FinishBounded(b, size, stride);
    DropBlankBounded(Finish(b, size, stride), size);
  }

  /** Every chunk is at most `chunkSize` long and holds some non-whitespace. */
  lemma ChunkBounded(text: string, chunkSize: nat, chunkOverlap: int)
    requires chunkOverlap < chunkSize
    ensures ChunksFit(Chunk(text, chunkSize, chunkOverlap), chunkSize)
  {
    var ps, stride := Paragraphs(text), chunkSize - chunkOverlap;
    ChunkParagraphsBounded(ps, chunkSize, stride);
    assert Chunk(text, chunkSize, chunkOverlap) == ChunkParagraphs(ps, chunkSize, stride);
  }

  /** The loop state holds some non-whitespace text: a buffer ending in a
      non-space character, or an emitted chunk that is not blank. */
  predicate HasContent(b: Buffer) {
    || (b.current != "" && !IsSpace(b.current[|b.current| - 1]))
    || exists i :: 0 <= i < |b.chunks| && !IsBlank(b.chunks[i])
  }

  /** Reading a paragraph always leaves some non-whitespace text in the loop state. */
  lemma StepHasContent(b: Buffer, p: string, size: nat, stride: nat)
    requires stride > 0 && size > 0 && IsStripped(p)
    ensures HasContent(Step(b, p, size, stride))
  {
    var b' := Step(b, p, size, stride);
    if |b.current| + |p| + 1 < size {
      assert b'.current[|b'.current| - 1] == p[|p| - 1];
    } else if |p| > size {
      var flushed := Finish(b, size, stride);
      var w := Windows(p, size, stride)[0];
      assert w[0] == p[0];
      assert b'.chunks[|flushed|] == w;
    }
  }

  /** Some chunk survives from any non-empty list of stripped paragraphs. */
  lemma ChunkParagraphsNonEmpty(ps: seq<string>, size: nat, stride: nat)
    requires stride > 0 && size > 0 && ps != []
    requires forall i :: 0 <= i < |ps| ==> IsStripped(ps[i])
    ensures ChunkParagraphs(ps, size, stride) != []
  {
    var init, p := ps[..|ps| - 1], ps[|ps| - 1];
    StepHasContent(Accumulate(init, size, stride), p, size, stride);
    var b := Accumulate(ps, size, stride);
    var all := Finish(b, size, stride);
    if b.current != "" && !IsSpace(b.current[|b.current| - 1]) {
      assert all[|b.chunks|] == b.current;
      DropBlankNonEmpty(all, |b.chunks|);
    } else {
      var i :| 0 <= i < |b.chunks| && !IsBlank(b.chunks[i]);
      assert all[i] == b.chunks[i];
      DropBlankNonEmpty(all, i);
    }
  }

  /** `simple_chunker` returns nothing exactly when the text is empty or only
      whitespace (for a positive `chunkSize`). */
  lemma ChunkEmptyIffBlank(text: string, chunkSize: nat, chunkOverlap: int)
    requires 0 < chunkSize && chunkOverlap < chunkSize
    ensures Chunk(text, chunkSize, chunkOverlap) == [] <==> IsBlank(text)
  {
    var ps, stride := Paragraphs(text), chunkSize - chunkOverlap;
    ParagraphsStripped(text);
    if ps != [] {
      ChunkParagraphsNonEmpty(ps, chunkSize, stride);
    } else {
      assert ChunkParagraphs(ps, chunkSize, stride) == [];
    }
    assert Chunk(text, chunkSize, chunkOverlap) == ChunkParagraphs(ps, chunkSize, stride);
  }

  /** A text without a blank line is a single paragraph: its stripped self, if not blank. */
  lemma OneParagraph(text: string)
    requires !ContainsBlankLine(text) && Strip(text) != ""
    ensures Paragraphs(text) == [Strip(text)]
  {
    SplitHead(text);
    SplitJoinRoundTrip(text);
    var parts := SplitOnBlankLines(text);
    assert |parts| > 1 ==> BlankLineAt(text, |parts[0]|);
    assert |parts| == 1;
    assert parts == [text];
  }

  /** One paragraph that fits is one chunk. */
  lemma ShortParagraph(p: string, size: nat, stride: nat)
    requires stride > 0 && !IsBlank(p) && |p| <= size
    ensures ChunkParagraphs([p], size, stride) == [p]
  {
    var b0 := Accumulate([], size, stride);
    assert [p][..0] == [];
    assert b0.current + (if b0.current != "" then " " else "") + p == p;
    assert Accumulate([p], size, stride) == Buffer([], p);
  }

  /** One paragraph that does not fit is its hard-split windows, less the blank ones. */
  lemma LongParagraph(p: string, size: nat, stride: nat)
    requires stride > 0 && |p| > size
    ensures ChunkParagraphs([p], size, stride) == DropBlank(Windows(p, size, stride))
  {
    assert [p][..0] == [];
    assert [] + Windows(p, size, stride) == Windows(p, size, stride);
    assert Accumulate([p], size, stride) == Buffer(Windows(p, size, stride), "");
  }

  /** The chunks of a text are the chunks of its paragraphs. */
  lemma ChunkOfParagraphs(text: string, chunkSize: nat, chunkOverlap: int, ps: seq<string>)
    requires chunkOverlap < chunkSize && Paragraphs(text) == ps
    ensures Chunk(text, chunkSize, chunkOverlap) == ChunkParagraphs(ps, chunkSize, chunkSize - chunkOverlap)
  {
  }

  /** A short text without blank lines comes back as one chunk: the text, stripped. */
  lemma SingleChunk(text: string, chunkSize: nat, chunkOverlap: int)
    requires chunkOverlap < chunkSize
    requires !ContainsBlankLine(text) && Strip(text) != "" && |Strip(text)| <= chunkSize
    ensures Chunk(text, chunkSize, chunkOverlap) == [Strip(text)]
  {
    var p, stride := Strip(text), chunkSize - chunkOverlap;
    assert Paragraphs(text) == [p] by { OneParagraph(text); }
    assert ChunkParagraphs([p], chunkSize, stride) == [p] by {
      ShortParagraph(p, chunkSize, stride);
    }
    ChunkOfParagraphs(text, chunkSize, chunkOverlap, [p]);
  }

  /** A single paragraph longer than `chunkSize` comes back as its hard-split windows,
      less any that are only whitespace. */
  lemma OversizedParagraph(text: string, chunkSize: nat, chunkOverlap: int)
    requires chunkOverlap < chunkSize
    requires !ContainsBlankLine(text) && |Strip(text)| > chunkSize
    ensures Chunk(text, chunkSize, chunkOverlap) == DropBlank(Windows(Strip(text), chunkSize, chunkSize - chunkOverlap))
  {
    var p, stride := Strip(text), chunkSize - chunkOverlap;
    assert Paragraphs(text) == [p] by { OneParagraph(text); }
    assert ChunkParagraphs([p], chunkSize, stride) == DropBlank(Windows(p, chunkSize, stride)) by {
      LongParagraph(p, chunkSize, stride);
    }
    ChunkOfParagraphs(text, chunkSize, chunkOverlap, [p]);
  }

  /** The concatenation of a sequence of groups. */
  function Flatten(groups: seq<seq<string>>): (ps: seq<string>)
  {
    if groups == [] then [] else Flatten(groups[..|groups| - 1]) + groups[|groups| - 1]
  }

  /** Consecutive, non-empty groups that together are exactly `ps`, in order. */
  predicate IsGrouping(groups: seq<seq<string>>, ps: seq<string>) {
    Flatten(groups) == ps && forall i :: 0 <= i < |groups| ==> groups[i] != []
  }

  /** Each group joined with single spaces. */
  function JoinGroups(groups: seq<seq<string>>): (r: seq<string>)
    ensures |r| == |groups|
  {
    seq(|groups|, i requires 0 <= i < |groups| => JoinWith(groups[i], " "))
  }

  /** The first paragraph of every group is one of the grouped paragraphs. */
  lemma {:induction false} GroupHeadIn(groups: seq<seq<string>>, i: nat)
    requires i < |groups| && groups[i] != []
    ensures groups[i][0] in Flatten(groups)
    decreases |groups|
  {
    if i < |groups| - 1 {
      GroupHeadIn(groups[..|groups| - 1], i);
    }
  }

  lemma FlattenAppend(groups: seq<seq<string>>, g: seq<string>)
    ensures Flatten(groups + [g]) == Flatten(groups) + g
  {
    assert (groups + [g])[..|groups|] == groups;
  }

  lemma JoinGroupsAppend(groups: seq<seq<string>>, g: seq<string>)
    ensures JoinGroups(groups + [g]) == JoinGroups(groups) + [JoinWith(g, " ")]
  {
  }

  /** The greedy rule's closing condition: a group is closed only when the next
      group's first paragraph, joined to it, would make it reach `size`. */
  predicate ClosesWhenFull(groups: seq<seq<string>>, size: nat) {
    forall i :: 0 <= i < |groups| - 1 && groups[i + 1] != [] ==>
      |JoinWith(groups[i], " ")| + 1 + |groups[i + 1][0]| >= size
  }

  /** The greedy rule's joining condition: a group of two or more paragraphs was
      joined only while the buffer stayed under `size`. */
  predicate JoinsUnderSize(groups: seq<seq<string>>, size: nat) {
    forall i :: 0 <= i < |groups| && |groups[i]| >= 2 ==> |JoinWith(groups[i], " ")| < size
  }

  /** The loop state obeys the greedy rule: the closed groups followed by the open one. */
  predicate Greedy(groups: seq<seq<string>>, open: seq<string>, size: nat) {
    if open == [] then groups == []
    else ClosesWhenFull(groups + [open], size) && JoinsUnderSize(groups + [open], size)
  }

  /** Appending a group keeps the closing condition exactly when the last group
      reached `size` with the new group's first paragraph. */
  lemma ClosesSnoc(groups: seq<seq<string>>, g: seq<string>, size: nat)
    requires g != []
    ensures ClosesWhenFull(groups + [g], size) <==>
      ClosesWhenFull(groups, size) &&
      (groups != [] ==> |JoinWith(groups[|groups| - 1], " ")| + 1 + |g[0]| >= size)
  {
    var gs := groups + [g];
    if ClosesWhenFull(gs, size) {
      forall i | 0 <= i < |groups| - 1 && groups[i + 1] != []
        ensures |JoinWith(groups[i], " ")| + 1 + |groups[i + 1][0]| >= size
      {
        assert gs[i] == groups[i] && gs[i + 1] == groups[i + 1];
      }
      if groups != [] {
        assert gs[|groups| - 1] == groups[|groups| - 1] && gs[|groups|] == g;
      }
    }
  }

  /** Appending a group keeps the joining condition exactly when that group obeys it. */
  lemma JoinsSnoc(groups: seq<seq<string>>, g: seq<string>, size: nat)
    ensures JoinsUnderSize(groups + [g], size) <==>
      JoinsUnderSize(groups, size) && (|g| >= 2 ==> |JoinWith(g, " ")| < size)
  {
    var gs := groups + [g];
    if JoinsUnderSize(gs, size) {
      forall i | 0 <= i < |groups| && |groups[i]| >= 2 ensures |JoinWith(groups[i], " ")| < size {
        assert gs[i] == groups[i];
      }
      assert gs[|groups|] == g;
    }
  }

  /** A single paragraph alone obeys the greedy rule. */
  lemma GreedyStart(p: string, size: nat)
    ensures Greedy([], [p], size)
  {
    ClosesSnoc([], [p], size);
    JoinsSnoc([], [p], size);
  }

  /** Joining a paragraph to the open group while the buffer stays under `size`
      keeps the greedy rule: the group's first paragraph stays the same. */
  lemma GreedyExtend(groups: seq<seq<string>>, o: seq<string>, p: string, size: nat)
    requires o != [] && Greedy(groups, o, size)
    requires |JoinWith(o, " ")| + 1 + |p| < size
    ensures Greedy(groups, o + [p], size)
  {
    JoinAppend(o, p, " ");
    ClosesSnoc(groups, o, size);
    ClosesSnoc(groups, o + [p], size);
    JoinsSnoc(groups, o, size);
    JoinsSnoc(groups, o + [p], size);
  }

  /** Closing the open group when the next paragraph would make it reach `size`,
      and opening a group with that paragraph, keeps the greedy rule. */
  lemma GreedyClose(groups: seq<seq<string>>, o: seq<string>, p: string, size: nat)
    requires o != [] && Greedy(groups, o, size)
    requires |JoinWith(o, " ")| + 1 + |p| >= size
    ensures Greedy(groups + [o], [p], size)
  {
    ClosesSnoc(groups + [o], [p], size);
    JoinsSnoc(groups + [o], [p], size);
  }

  /** Reading one paragraph that fits either extends the open group or closes it
      and opens a new one, following the greedy rule. */
  lemma StepGroups(g0: seq<seq<string>>, o0: seq<string>, p: string, size: nat, stride: nat)
    returns (groups: seq<seq<string>>, open: seq<string>)
    requires stride > 0 && p != "" && |p| <= size
    requires o0 != [] ==> o0[0] != ""
    requires |JoinWith(o0, " ")| <= size
    requires forall i :: 0 <= i < |g0| ==> g0[i] != []
    requires Greedy(g0, o0, size)
    ensures Flatten(groups) + open == Flatten(g0) + o0 + [p]
    ensures forall i :: 0 <= i < |groups| ==> groups[i] != []
    ensures Step(Buffer(JoinGroups(g0), JoinWith(o0, " ")), p, size, stride) == Buffer(JoinGroups(groups), JoinWith(open, " "))
    ensures open != [] && open[0] != ""
    ensures Greedy(groups, open, size)
  {
    var b := Buffer(JoinGroups(g0), JoinWith(o0, " "));
    assert b.current == "" <==> o0 == [] by {
      if o0 != [] { assert o0[0] <= b.current; }
    }
    if |b.current| + |p| + 1 < size {
      groups, open := g0, o0 + [p];
      if o0 == [] {
        assert open == [p];
        GreedyStart(p, size);
      } else {
        JoinAppend(o0, p, " ");
        GreedyExtend(g0, o0, p, size);
      }
    } else if o0 == [] {
      groups, open := g0, [p];
      GreedyStart(p, size);
    } else {
      groups, open := g0 + [o0], [p];
      FlattenAppend(g0, o0);
      JoinGroupsAppend(g0, o0);
      assert Finish(b, size, stride) == JoinGroups(groups);
      GreedyClose(g0, o0, p, size);
    }
  }

  /** Without oversized paragraphs, the loop state is a grouping of the paragraphs read
      that obeys the greedy rule: closed groups already emitted, and an open group held
      joined in the buffer. */
  lemma {:induction false} AccumulateGroups(ps: seq<string>, size: nat, stride: nat)
    returns (groups: seq<seq<string>>, open: seq<string>)
    requires stride > 0
    requires forall i :: 0 <= i < |ps| ==> ps[i] != "" && |ps[i]| <= size
    ensures Flatten(groups) + open == ps
    ensures forall i :: 0 <= i < |groups| ==> groups[i] != []
    ensures Accumulate(ps, size, stride) == Buffer(JoinGroups(groups), JoinWith(open, " "))
    ensures open != [] ==> open[0] != ""
    ensures Greedy(groups, open, size)
    decreases |ps|
  {
    if ps == [] {
      return [], [];
    }
    var init, p := ps[..|ps| - 1], ps[|ps| - 1];
    assert ps == init + [p];
    var g0, o0 := AccumulateGroups(init, size, stride);
    AccumulateBounded(init, size, stride);
    groups, open := StepGroups(g0, o0, p, size, stride);
  }

  /** Joined groups of stripped paragraphs are never blank: each starts with a
      paragraph's first character. */
  lemma JoinGroupsNotBlank(groups: seq<seq<string>>, ps: seq<string>)
    requires IsGrouping(groups, ps)
    requires forall i :: 0 <= i < |ps| ==> IsStripped(ps[i])
    ensures forall i :: 0 <= i < |groups| ==> !IsBlank(JoinGroups(groups)[i])
  {
    forall i | 0 <= i < |groups| ensures !IsBlank(JoinGroups(groups)[i]) {
      var g := groups[i];
      GroupHeadIn(groups, i);
      var k :| 0 <= k < |ps| && ps[k] == g[0];
      assert g[0] <= JoinGroups(groups)[i];
    }
  }

  /** When no paragraph exceeds `size`, the chunks are the paragraphs cut into
      consecutive non-empty groups, each joined with single spaces, by the greedy
      rule: a group closes only when the next paragraph would not fit, and a group of
      several paragraphs stays under `size`. */
  lemma ParagraphGroups(ps: seq<string>, size: nat, stride: nat) returns (groups: seq<seq<string>>)
    requires stride > 0
    requires forall i :: 0 <= i < |ps| ==> IsStripped(ps[i]) && |ps[i]| <= size
    ensures IsGrouping(groups, ps) && ChunkParagraphs(ps, size, stride) == JoinGroups(groups)
    ensures ClosesWhenFull(groups, size) && JoinsUnderSize(groups, size)
  {
    var g0, open := AccumulateGroups(ps, size, stride);
    AccumulateBounded(ps, size, stride);
    var b := Accumulate(ps, size, stride);
    if open != [] {
      groups := g0 + [open];
      FlattenAppend(g0, open);
      JoinGroupsAppend(g0, open);
      assert b.current != "" by { assert open[0] <= JoinWith(open, " "); }
    } else {
      groups := g0;
    }
    assert Finish(b, size, stride) == JoinGroups(groups);
    JoinGroupsNotBlank(groups, ps);
    DropBlankUnchanged(JoinGroups(groups));
  }

  /** When no paragraph exceeds `chunkSize`, the chunks are the paragraphs cut into
      consecutive non-empty groups, each joined with single spaces: source order is
      kept, no paragraph is lost or repeated, and the cut follows the greedy rule. */
  lemma ChunkPartition(text: string, chunkSize: nat, chunkOverlap: int)
    requires chunkOverlap < chunkSize
    requires forall i :: 0 <= i < |Paragraphs(text)| ==> |Paragraphs(text)[i]| <= chunkSize
    ensures exists groups ::
      && IsGrouping(groups, Paragraphs(text))
      && ClosesWhenFull(groups, chunkSize) && JoinsUnderSize(groups, chunkSize)
      && Chunk(text, chunkSize, chunkOverlap) == JoinGroups(groups)
  {
    var ps, stride := Paragraphs(text), chunkSize - chunkOverlap;
    ParagraphsStripped(text);
    var groups := ParagraphGroups(ps, chunkSize, stride);
    assert Chunk(text, chunkSize, chunkOverlap) == ChunkParagraphs(ps, chunkSize, stride);
    assert IsGrouping(groups, ps) && ClosesWhenFull(groups, chunkSize) && JoinsUnderSize(groups, chunkSize)
      && Chunk(text, chunkSize, chunkOverlap) == JoinGroups(groups);
  }
}
