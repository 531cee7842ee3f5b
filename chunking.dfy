/** `chunkText` (ingest_runner function): the sanitised text is cut into paragraphs at
    blank lines; paragraphs are packed greedily into chunks of at most `chunkSize`
    characters, joined by a blank line; a paragraph too long for one chunk is cut into
    overlapping fixed-width slices; and no more than `maxChunks` chunks are produced. */
module Chunking {

  import opened Wrappers
  import opened Text
  import opened Normalize
  import opened IngestText

  function Min(a: int, b: int): int {
    if a <= b then a else b
  }

  // ---------------------------------------------------------------------------------------
  // paragraphs

  /** `split(/\n{2,}/)`: the pieces between maximal runs of two or more line breaks. */
  function SplitParagraphs(s: string): (parts: seq<string>)
    ensures |parts| >= 1
    decreases |s|
  {
    if s == [] then [[]]
    else if NewlineRun(s) >= 2 then [[]] + SplitParagraphs(s[NewlineRun(s)..])
    else
      var rest := SplitParagraphs(s[1..]);
      [[s[0]] + rest[0]] + rest[1..]
  }

  /** Joining after an empty first piece puts a separator in front. */
  lemma JoinEmptyHead(rest: seq<string>, sep: string)
    requires |rest| >= 1
    ensures Join([[]] + rest, sep) == sep + Join(rest, sep)
  {
    assert ([[]] + rest)[1..] == rest;
  }

  /** Joining after a character is put in front of the first piece puts it in front. */
  lemma JoinConsHead(c: char, rest: seq<string>, sep: string)
    requires |rest| >= 1
    ensures Join([[c] + rest[0]] + rest[1..], sep) == [c] + Join(rest, sep)
  {
    var parts := [[c] + rest[0]] + rest[1..];
    if |rest| > 1 {
      assert parts[1..] == rest[1..];
      assert Join(parts, sep) == ([c] + rest[0]) + sep + Join(rest[1..], sep);
    }
  }

  /** On sanitised text every separator is exactly one blank line, so joining the pieces
      with `"\n\n"` gives the text back. */
  lemma {:induction false} SplitParagraphsJoin(s: string)
    requires NoTripleNewline(s)
    ensures Join(SplitParagraphs(s), "\n\n") == s
    decreases |s|
  {
    if s == [] {
    } else if NewlineRun(s) >= 2 {
      RunOfThree(s);
      assert NewlineRun(s) == 2;
      InfixNoTriple(s, 2, |s|);
      SplitParagraphsJoin(s[2..]);
      BreakJoin(s);
    } else {
      InfixNoTriple(s, 1, |s|);
      SplitParagraphsJoin(s[1..]);
      CharJoin(s);
    }
  }

  /** The step of `SplitParagraphsJoin` at a blank line. */
  lemma BreakJoin(s: string)
    requires |s| >= 2 && NewlineRun(s) == 2
    requires Join(SplitParagraphs(s[2..]), "\n\n") == s[2..]
    ensures Join(SplitParagraphs(s), "\n\n") == s
  {
    assert SplitParagraphs(s) == [[]] + SplitParagraphs(s[2..]);
    JoinEmptyHead(SplitParagraphs(s[2..]), "\n\n");
    assert s == s[..2] + s[2..];
  }

  /** The step of `SplitParagraphsJoin` at any other character. */
  lemma CharJoin(s: string)
    requires |s| >= 1 && NewlineRun(s) < 2
    requires Join(SplitParagraphs(s[1..]), "\n\n") == s[1..]
    ensures Join(SplitParagraphs(s), "\n\n") == s
  {
    var rest := SplitParagraphs(s[1..]);
    assert SplitParagraphs(s) == [[s[0]] + rest[0]] + rest[1..];
    JoinConsHead(s[0], rest, "\n\n");
    assert s == [s[0]] + s[1..];
  }

  /** `split(/\n{2,}/).map((value) => value.trim()).filter(Boolean)`. */
  function Paragraphs(normalized: string): (r: seq<string>)
    ensures forall k :: 0 <= k < |r| ==> r[k] != []
  {
    DropEmpty(TrimEach(SplitParagraphs(normalized)))
  }

  // ---------------------------------------------------------------------------------------
  // the chunks, as the loop produces them

  /** `Math.max(1, chunkSize - chunkOverlap)`: how far each slice starts after the one
      before it. */
  function Step(chunkSize: int, chunkOverlap: int): (s: nat)
    ensures s >= 1 && s >= chunkSize - chunkOverlap
  {
    if chunkSize - chunkOverlap > 1 then chunkSize - chunkOverlap else 1
  }

  /** The chunks so far, and whether the cap ended the whole run. */
  datatype Packed = Packed(chunks: seq<string>, capped: bool)

  /** The slicing loop from `cursor` on: `paragraph.slice(cursor, cursor + chunkSize)`
      is pushed; the run ends at the cap, the loop after a slice shorter than
      `chunkSize`, and otherwise the cursor moves on by `step`. */
  function SliceFrom(p: string, cursor: nat, acc: seq<string>, size: nat, step: nat, maxChunks: int): Packed
    requires step >= 1
    decreases |p| - cursor
  {
    if cursor >= |p| then Packed(acc, false)
    else
      var slice := p[cursor..Min(cursor + size, |p|)];
      var acc' := acc + [slice];
      if |acc'| >= maxChunks then Packed(acc', true)
      else if |slice| < size then Packed(acc', false)
      else SliceFrom(p, cursor + step, acc', size, step, maxChunks)
  }

  /** The paragraph loop from a given state: `current` is the chunk being filled, `acc`
      the chunks pushed. A paragraph that fits joins `current`; otherwise `current` is
      pushed (ending the run at the cap) and the paragraph starts the next chunk, or is
      sliced when it is itself too long. After the last paragraph, a non-empty `current`
      is pushed if the cap allows. */
  function PackFrom(paras: seq<string>, current: string, acc: seq<string>,
                    size: nat, step: nat, maxChunks: int): seq<string>
    requires step >= 1
    decreases |paras|, 1
  {
    if paras == [] then
      (if current != [] && |acc| < maxChunks then acc + [current] else acc)
    else
      var p := paras[0];
      var candidate := if current != [] then current + "\n\n" + p else p;
      if |candidate| <= size then PackFrom(paras[1..], candidate, acc, size, step, maxChunks)
      else
        var acc1 := if current != [] then acc + [current] else acc;
        if current != [] && |acc1| >= maxChunks then acc1
        else if |p| <= size then PackFrom(paras[1..], p, acc1, size, step, maxChunks)
        else AfterSlicing(SliceFrom(p, 0, acc1, size, step, maxChunks), paras[1..], size, step, maxChunks)
  }

  /** What follows the slicing of a long paragraph: the end of the run at the cap, the
      next paragraph with an empty `current` otherwise. */
  function AfterSlicing(r: Packed, rest: seq<string>, size: nat, step: nat, maxChunks: int): seq<string>
    requires step >= 1
    decreases |rest| + 1, 0
  {
    if r.capped then r.chunks else PackFrom(rest, "", r.chunks, size, step, maxChunks)
  }

  /** The contents of the chunks `chunkText` returns. */
  function ChunkContents(text: string, chunkSize: nat, chunkOverlap: int, maxChunks: int): seq<string> {
    var normalized := SanitizeText(text);
    if normalized == [] then []
    else PackFrom(Paragraphs(normalized), "", [], chunkSize, Step(chunkSize, chunkOverlap), maxChunks)
  }

  // ---------------------------------------------------------------------------------------
  // chunkText

  /** A chunk row; the metadata `chunkText` attaches is always the empty object. */
  datatype ChunkRow = ChunkRow(chunkIndex: nat, content: string)

  function Contents(rows: seq<ChunkRow>): (r: seq<string>)
    ensures |r| == |rows|
    decreases |rows|
  {
    if rows == [] then [] else Contents(rows[..|rows| - 1]) + [rows[|rows| - 1].content]
  }

  lemma ContentsSnoc(rows: seq<ChunkRow>, row: ChunkRow)
    ensures Contents(rows + [row]) == Contents(rows) + [row.content]
  {
    assert (rows + [row])[..|rows|] == rows;
  }

  /** One turn of the slicing loop. */
  lemma SliceStep(p: string, cursor: nat, acc: seq<string>, size: nat, step: nat, maxChunks: int)
    requires step >= 1 && cursor < |p|
    ensures var slice := p[cursor..Min(cursor + size, |p|)];
      SliceFrom(p, cursor, acc, size, step, maxChunks) ==
        if |acc| + 1 >= maxChunks then Packed(acc + [slice], true)
        else if |slice| < size then Packed(acc + [slice], false)
        else SliceFrom(p, cursor + step, acc + [slice], size, step, maxChunks)
  {
  }

  predicate Indexed(rows: seq<ChunkRow>) {
    forall i :: 0 <= i < |rows| ==> rows[i].chunkIndex == i
  }

  /** `chunkText`: the rows carry their own position as `chunk_index`, and their contents
      are the chunks described above. */
  method ChunkText(text: string, chunkSize: nat, chunkOverlap: int, maxChunks: int)
    returns (chunks: seq<ChunkRow>)
    requires chunkSize >= 1
    ensures Indexed(chunks)
    ensures Contents(chunks) == ChunkContents(text, chunkSize, chunkOverlap, maxChunks)
  {
    var normalized := SanitizeText(text);
    if normalized == [] {
      return [];
    }
    var paragraphs := Paragraphs(normalized);
    var step := if chunkSize - chunkOverlap > 1 then chunkSize - chunkOverlap else 1;
    chunks := PackParagraphs(paragraphs, chunkSize, step, maxChunks);
  }

  /** The paragraph loop of `chunkText`. */
  method PackParagraphs(paragraphs: seq<string>, chunkSize: nat, step: nat, maxChunks: int)
    returns (chunks: seq<ChunkRow>)
    requires step >= 1
    ensures Indexed(chunks)
    ensures Contents(chunks) == PackFrom(paragraphs, "", [], chunkSize, step, maxChunks)
  {
    ghost var goal := PackFrom(paragraphs, "", [], chunkSize, step, maxChunks);
    chunks := [];
    var current := "";
    var i := 0;
    while i < |paragraphs|
      invariant 0 <= i <= |paragraphs|
      invariant Indexed(chunks)
      invariant PackFrom(paragraphs[i..], current, Contents(chunks), chunkSize, step, maxChunks) == goal
    {
      var paragraph := paragraphs[i];
      assert paragraphs[i..][0] == paragraph && paragraphs[i..][1..] == paragraphs[i + 1..];
      ghost var acc0 := Contents(chunks);
      var candidate := if current != [] then current + "\n\n" + paragraph else paragraph;
      if |candidate| <= chunkSize {
        assert PackFrom(paragraphs[i..], current, acc0, chunkSize, step, maxChunks)
          == PackFrom(paragraphs[i + 1..], candidate, acc0, chunkSize, step, maxChunks);
        current := candidate;
        i := i + 1;
        continue;
      }
      if current != [] {
        chunks := Push(chunks, current);
        if |chunks| >= maxChunks {
          return;
        }
      }
      if |paragraph| <= chunkSize {
        assert PackFrom(paragraphs[i..], current, acc0, chunkSize, step, maxChunks)
          == PackFrom(paragraphs[i + 1..], paragraph, Contents(chunks), chunkSize, step, maxChunks);
        current := paragraph;
        i := i + 1;
        continue;
      }
      assert PackFrom(paragraphs[i..], current, acc0, chunkSize, step, maxChunks)
        == AfterSlicing(SliceFrom(paragraph, 0, Contents(chunks), chunkSize, step, maxChunks),
                        paragraphs[i + 1..], chunkSize, step, maxChunks);
      var capped;
      chunks, capped := SliceParagraph(paragraph, chunks, chunkSize, step, maxChunks);
      if capped {
        return;
      }
      current := "";
      i := i + 1;
    }
    if current != [] && |chunks| < maxChunks {
      chunks := Push(chunks, current);
    }
  }

  /** The slicing loop of `chunkText` for one long paragraph: each slice is pushed with
      its position as index; `capped` reports that the cap ended the whole run. */
  method SliceParagraph(paragraph: string, rows: seq<ChunkRow>, chunkSize: nat, step: nat, maxChunks: int)
    returns (chunks: seq<ChunkRow>, capped: bool)
    requires step >= 1
    requires Indexed(rows)
    ensures Indexed(chunks)
    ensures Packed(Contents(chunks), capped) == SliceFrom(paragraph, 0, Contents(rows), chunkSize, step, maxChunks)
  {
    ghost var goal := SliceFrom(paragraph, 0, Contents(rows), chunkSize, step, maxChunks);
    chunks := rows;
    var cursor := 0;
    while cursor < |paragraph|
      invariant Indexed(chunks)
      invariant SliceFrom(paragraph, cursor, Contents(chunks), chunkSize, step, maxChunks) == goal
      decreases |paragraph| - cursor
    {
      var end := if cursor + chunkSize < |paragraph| then cursor + chunkSize else |paragraph|;
      var slice := paragraph[cursor..end];
      SliceStep(paragraph, cursor, Contents(chunks), chunkSize, step, maxChunks);
      chunks := Push(chunks, slice);
      if |chunks| >= maxChunks {
        return chunks, true;
      }
      if |slice| < chunkSize {
        return chunks, false;
      }
      cursor := cursor + step;
    }
    capped := false;
  }

  /** `chunks.push({ chunk_index: chunks.length, content, metadata: {} })`. */
  function Push(rows: seq<ChunkRow>, content: string): (r: seq<ChunkRow>)
    requires Indexed(rows)
    ensures Indexed(r) && |r| == |rows| + 1
    ensures Contents(r) == Contents(rows) + [content]
  {
    var r := rows + [ChunkRow(|rows|, content)];
    ContentsSnoc(rows, ChunkRow(|rows|, content));
    r
  }

  // ---------------------------------------------------------------------------------------
  // what holds of the chunks

  predicate GoodChunk(c: string, size: nat) {
    c != [] && |c| <= size
  }

  predicate AllGood(cs: seq<string>, size: nat) {
    forall k :: 0 <= k < |cs| ==> GoodChunk(cs[k], size)
  }

  lemma {:induction false} SliceFromBounded(p: string, cursor: nat, acc: seq<string>, size: nat, step: nat, maxChunks: int)
    requires step >= 1 && size >= 1
    requires AllGood(acc, size)
    ensures AllGood(SliceFrom(p, cursor, acc, size, step, maxChunks).chunks, size)
    decreases |p| - cursor
  {
    if cursor < |p| {
      var slice := p[cursor..Min(cursor + size, |p|)];
      var acc' := acc + [slice];
      assert GoodChunk(slice, size);
      assert AllGood(acc', size);
      if |acc'| < maxChunks && |slice| >= size {
        SliceFromBounded(p, cursor + step, acc', size, step, maxChunks);
      }
    }
  }

  lemma {:induction false} PackFromBounded(paras: seq<string>, current: string, acc: seq<string>,
                                           size: nat, step: nat, maxChunks: int)
    requires step >= 1 && size >= 1
    requires forall k :: 0 <= k < |paras| ==> paras[k] != []
    requires |current| <= size
    requires AllGood(acc, size)
    ensures AllGood(PackFrom(paras, current, acc, size, step, maxChunks), size)
    decreases |paras|
  {
    if paras != [] {
      var p := paras[0];
      var candidate := if current != [] then current + "\n\n" + p else p;
      if |candidate| <= size {
        PackFromBounded(paras[1..], candidate, acc, size, step, maxChunks);
      } else {
        var acc1 := if current != [] then acc + [current] else acc;
        assert AllGood(acc1, size);
        if current != [] && |acc1| >= maxChunks {
        } else if |p| <= size {
          PackFromBounded(paras[1..], p, acc1, size, step, maxChunks);
        } else {
          var r := SliceFrom(p, 0, acc1, size, step, maxChunks);
          SliceFromBounded(p, 0, acc1, size, step, maxChunks);
          if !r.capped {
            PackFromBounded(paras[1..], "", r.chunks, size, step, maxChunks);
          }
        }
      }
    }
  }

  /** Every chunk is non-empty and at most `chunkSize` characters long. */
  lemma ChunksBounded(text: string, chunkSize: nat, chunkOverlap: int, maxChunks: int)
    requires chunkSize >= 1
    ensures AllGood(ChunkContents(text, chunkSize, chunkOverlap, maxChunks), chunkSize)
  {
    var normalized := SanitizeText(text);
    if normalized != [] {
      PackFromBounded(Paragraphs(normalized), "", [], chunkSize, Step(chunkSize, chunkOverlap), maxChunks);
    }
  }

  lemma {:induction false} SliceFromCapped(p: string, cursor: nat, acc: seq<string>, size: nat, step: nat, maxChunks: int)
    requires step >= 1
    requires |acc| < maxChunks
    ensures var r := SliceFrom(p, cursor, acc, size, step, maxChunks);
      |r.chunks| <= maxChunks && (!r.capped ==> |r.chunks| < maxChunks)
    decreases |p| - cursor
  {
    if cursor < |p| {
      var slice := p[cursor..Min(cursor + size, |p|)];
      if |acc + [slice]| < maxChunks && |slice| >= size {
        SliceFromCapped(p, cursor + step, acc + [slice], size, step, maxChunks);
      }
    }
  }

  lemma {:induction false} PackFromCapped(paras: seq<string>, current: string, acc: seq<string>,
                                          size: nat, step: nat, maxChunks: int)
    requires step >= 1
    requires |acc| < maxChunks
    ensures |PackFrom(paras, current, acc, size, step, maxChunks)| <= maxChunks
    decreases |paras|
  {
    if paras != [] {
      var p := paras[0];
      var candidate := if current != [] then current + "\n\n" + p else p;
      if |candidate| <= size {
        PackFromCapped(paras[1..], candidate, acc, size, step, maxChunks);
      } else {
        var acc1 := if current != [] then acc + [current] else acc;
        if current != [] && |acc1| >= maxChunks {
        } else if |p| <= size {
          PackFromCapped(paras[1..], p, acc1, size, step, maxChunks);
        } else {
          var r := SliceFrom(p, 0, acc1, size, step, maxChunks);
          SliceFromCapped(p, 0, acc1, size, step, maxChunks);
          if !r.capped {
            PackFromCapped(paras[1..], "", r.chunks, size, step, maxChunks);
          }
        }
      }
    }
  }

  /** With a positive cap, no more than `maxChunks` chunks are produced. */
  lemma ChunksCapped(text: string, chunkSize: nat, chunkOverlap: int, maxChunks: int)
    requires maxChunks >= 1
    ensures |ChunkContents(text, chunkSize, chunkOverlap, maxChunks)| <= maxChunks
  {
    var normalized := SanitizeText(text);
    if normalized != [] {
      PackFromCapped(Paragraphs(normalized), "", [], chunkSize, Step(chunkSize, chunkOverlap), maxChunks);
    }
  }

  /** The slices of a long paragraph start at `cursor`, `cursor + step`, `cursor + 2·step`,
      …; each is the next `size` characters (fewer only at the end of the paragraph); every
      slice but the last is full, so slicing stops after the first short slice. */
  lemma {:induction false} SliceOffsets(p: string, cursor: nat, acc: seq<string>, size: nat, step: nat, maxChunks: int)
    requires step >= 1
    ensures var r := SliceFrom(p, cursor, acc, size, step, maxChunks);
      && |acc| <= |r.chunks| && r.chunks[..|acc|] == acc
      && forall j :: |acc| <= j < |r.chunks| ==> SliceAt(p, cursor, j - |acc|, size, step, r.chunks[j], j == |r.chunks| - 1)
    decreases |p| - cursor
  {
    if cursor < |p| {
      var slice := p[cursor..Min(cursor + size, |p|)];
      var acc' := acc + [slice];
      var r := SliceFrom(p, cursor, acc, size, step, maxChunks);
      if |acc'| < maxChunks && |slice| >= size {
        assert r == SliceFrom(p, cursor + step, acc', size, step, maxChunks);
        SliceOffsets(p, cursor + step, acc', size, step, maxChunks);
        assert r.chunks[..|acc|] == r.chunks[..|acc'|][..|acc|];
        forall j | |acc| <= j < |r.chunks|
          ensures SliceAt(p, cursor, j - |acc|, size, step, r.chunks[j], j == |r.chunks| - 1)
        {
          if j == |acc| {
            assert r.chunks[j] == r.chunks[..|acc'|][j];
            SliceFirst(p, cursor, size, step, slice, j == |r.chunks| - 1);
          } else {
            SliceAtShift(p, cursor, j - |acc'|, size, step, r.chunks[j], j == |r.chunks| - 1);
          }
        }
      } else {
        assert r.chunks == acc';
        assert r.chunks[..|acc|] == acc;
        SliceFirst(p, cursor, size, step, slice, true);
      }
    }
  }

  /** The slice at `cursor` is the first one taken from there. */
  lemma SliceFirst(p: string, cursor: nat, size: nat, step: nat, c: string, last: bool)
    requires cursor < |p| && c == p[cursor..Min(cursor + size, |p|)]
    requires !last ==> |c| >= size
    ensures SliceAt(p, cursor, 0, size, step, c, last)
  {
    assert cursor + 0 * step == cursor;
  }

  lemma SliceAtShift(p: string, cursor: nat, k: int, size: nat, step: nat, c: string, last: bool)
    requires SliceAt(p, cursor + step, k, size, step, c, last)
    ensures SliceAt(p, cursor, k + 1, size, step, c, last)
  {
    assert cursor + (k + 1) * step == cursor + step + k * step;
  }

  /** The `k`-th slice taken from `cursor` on is `c`: it starts `k` steps after `cursor`,
      inside the paragraph, holds the next `size` characters (fewer only at the end), and
      is full unless it is the last one taken. */
  predicate SliceAt(p: string, cursor: nat, k: int, size: nat, step: nat, c: string, last: bool) {
    var start := cursor + k * step;
    && 0 <= k && start < |p|
    && c == p[start..Min(start + size, |p|)]
    && (!last ==> start + size <= |p|)
  }

  /** Text that is nothing but whitespace has no chunks. */
  lemma BlankTextHasNoChunks(text: string, chunkSize: nat, chunkOverlap: int, maxChunks: int)
    requires forall i :: 0 <= i < |text| ==> IsSpace(text[i])
    ensures ChunkContents(text, chunkSize, chunkOverlap, maxChunks) == []
  {
    var t1 := ReplaceChar(text, '\0', ' ');
    var t2 := ReplaceCrLf(t1);
    var u := ReplaceChar(t2, '\r', '\n');
    ReplaceCrLfChars(t1);
    assert forall i :: 0 <= i < |t2| ==> IsSpace(t2[i]) by {
      forall i | 0 <= i < |t2| ensures IsSpace(t2[i]) {
        var j :| 0 <= j < |t1| && t1[j] == t2[i];
      }
    }
    assert u == UnifyLineEnds(text);
    var b := StripBlanksBeforeNewline(u);
    StripBlanksChars(u);
    assert forall i :: 0 <= i < |b| ==> IsSpace(b[i]) by {
      forall i | 0 <= i < |b| ensures IsSpace(b[i]) {
        var j :| 0 <= j < |u| && u[j] == b[i];
      }
    }
    var c := CollapseNewlines(b);
    CollapseChars(b);
    assert forall i :: 0 <= i < |c| ==> IsSpace(c[i]) by {
      forall i | 0 <= i < |c| ensures IsSpace(c[i]) {
        var j :| 0 <= j < |b| && b[j] == c[i];
      }
    }
    assert SanitizeText(text) == Trim(c) == [];
  }
}
