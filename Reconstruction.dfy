/** `getFullCodeFromChunks`: the file content after all edits, made of the
    lines of every chunk that is not `removed`, joined with `\n`. */
module Reconstruction {
  import opened Text
  import opened BlogTypes
  import opened ChunkParser

  /** The surviving lines of a chunk sequence, chunk by chunk. */
  function FinalLines(cs: seq<Chunk>): seq<string> {
    if cs == [] then []
    else
      var last := cs[|cs| - 1];
      FinalLines(cs[..|cs| - 1]) + (if last.kind == Removed then [] else last.lines)
  }

  /** The specification of `getFullCodeFromChunks`. */
  function FullCode(cs: seq<Chunk>): string {
    Join(FinalLines(cs))
  }

  /** Line-level reference: the texts of the classified lines that are not
      removed. */
  function KeptTexts(ls: seq<Line>): seq<string> {
    if ls == [] then []
    else
      var last := ls[|ls| - 1];
      KeptTexts(ls[..|ls| - 1]) + (if last.kind == Removed then [] else [last.text])
  }

  lemma {:induction false} KeptTextsAppend(a: seq<Line>, b: seq<Line>)
    ensures KeptTexts(a + b) == KeptTexts(a) + KeptTexts(b)
    decreases |b|
  {
    if b == [] {
      assert a + b == a;
    } else {
      KeptTextsAppend(a, b[..|b| - 1]);
      assert (a + b)[..|a + b| - 1] == a + b[..|b| - 1];
    }
  }

  lemma {:induction false} KeptTextsTag(c: Chunk)
    ensures KeptTexts(Tag(c)) == if c.kind == Removed then [] else c.lines
    decreases |c.lines|
  {
    if c.lines != [] {
      var shorter := Chunk(c.kind, c.lines[..|c.lines| - 1]);
      assert Tag(c)[..|c.lines| - 1] == Tag(shorter);
      KeptTextsTag(shorter);
      assert c.lines[..|c.lines| - 1] + [c.lines[|c.lines| - 1]] == c.lines;
    }
  }

  /** Chunk-level and line-level reconstruction agree: the final lines are
      exactly the non-removed lines the chunks stand for. */
  lemma {:induction false} FinalLinesKeptTexts(cs: seq<Chunk>)
    ensures FinalLines(cs) == KeptTexts(Expand(cs))
  {
    if cs != [] {
      var init, last := cs[..|cs| - 1], cs[|cs| - 1];
      FinalLinesKeptTexts(init);
      KeptTextsAppend(Expand(init), Tag(last));
      KeptTextsTag(last);
    }
  }

  /** Reconstruction distributes over concatenation of chunk sequences. */
  lemma {:induction false} FinalLinesAppend(a: seq<Chunk>, b: seq<Chunk>)
    ensures FinalLines(a + b) == FinalLines(a) + FinalLines(b)
    decreases |b|
  {
    if b == [] {
      assert a + b == a;
    } else {
      FinalLinesAppend(a, b[..|b| - 1]);
      assert (a + b)[..|a + b| - 1] == a + b[..|b| - 1];
    }
  }

  /** A `removed` chunk inserted anywhere does not change the final content. */
  lemma RemovedChunkIgnored(a: seq<Chunk>, lines: seq<string>, b: seq<Chunk>)
    ensures FullCode(a + [Chunk(Removed, lines)] + b) == FullCode(a + b)
  {
    FinalLinesAppend(a + [Chunk(Removed, lines)], b);
    FinalLinesAppend(a, [Chunk(Removed, lines)]);
    FinalLinesAppend(a, b);
    assert [Chunk(Removed, lines)][..0] == [];
    assert FinalLines([Chunk(Removed, lines)]) == [];
    assert FinalLines(a + [Chunk(Removed, lines)]) == FinalLines(a);
  }

  function WithoutRemoved(cs: seq<Chunk>): (r: seq<Chunk>)
    ensures forall i :: 0 <= i < |r| ==> r[i].kind != Removed
  {
    if cs == [] then []
    else
      var last := cs[|cs| - 1];
      WithoutRemoved(cs[..|cs| - 1]) + (if last.kind == Removed then [] else [last])
  }

  /** Dropping every `removed` chunk does not change the final content. */
  lemma {:induction false} WithoutRemovedSameFinal(cs: seq<Chunk>)
    ensures FinalLines(WithoutRemoved(cs)) == FinalLines(cs)
  {
    if cs != [] {
      var init, last := cs[..|cs| - 1], cs[|cs| - 1];
      WithoutRemovedSameFinal(init);
      if last.kind != Removed {
        FinalLinesAppend(WithoutRemoved(init), [last]);
        assert [last][..0] == [];
      } else {
        assert WithoutRemoved(cs) == WithoutRemoved(init) + [];
        assert WithoutRemoved(init) + [] == WithoutRemoved(init);
        assert FinalLines(cs) == FinalLines(init) + [];
        assert FinalLines(init) + [] == FinalLines(init);
      }
    }
  }

  /** Every final line comes from some chunk that is not `removed`. */
  lemma {:induction false} FinalLinesFromKeptChunks(cs: seq<Chunk>, t: string)
    requires t in FinalLines(cs)
    ensures exists i :: 0 <= i < |cs| && cs[i].kind != Removed && t in cs[i].lines
  {
    var init, last := cs[..|cs| - 1], cs[|cs| - 1];
    if t in FinalLines(init) {
      FinalLinesFromKeptChunks(init, t);
      var i :| 0 <= i < |init| && init[i].kind != Removed && t in init[i].lines;
      assert cs[i] == init[i];
    } else {
      assert cs[|cs| - 1] == last;
    }
  }

  /** End to end: the final content of a parsed text is the `\n`-join of its
      lines that are not `-`-marked, each with its marker stripped. */
  lemma ParsedFinalLines(code: string)
    ensures FinalLines(ParseChunks(code)) == KeptTexts(Classified(Split(code)))
  {
    FinalLinesKeptTexts(ParseChunks(code));
    ParseChunksSpec(code);
  }

  /** Reconstruction is idempotent: re-reading the final content as one
      context chunk and reconstructing again gives the same string. */
  lemma FullCodeIdempotent(cs: seq<Chunk>)
    ensures FullCode([Chunk(Context, Split(FullCode(cs)))]) == FullCode(cs)
  {
    var c := Chunk(Context, Split(FullCode(cs)));
    assert [c][..0] == [];
    assert FinalLines([c]) == [] + c.lines;
    assert [] + c.lines == c.lines;
    JoinSplit(FullCode(cs));
  }

  /** The loop of `getFullCodeFromChunks`. */
  method GetFullCodeFromChunks(chunks: seq<Chunk>) returns (s: string)
    ensures s == FullCode(chunks)
  {
    var lines: seq<string> := [];
    for i := 0 to |chunks|
      invariant lines == FinalLines(chunks[..i])
    {
      assert chunks[..i + 1][..i] == chunks[..i];
      if chunks[i].kind == Removed {
        continue;
      }
      lines := lines + chunks[i].lines;
    }
    assert chunks[..|chunks|] == chunks;
    s := Join(lines);
  }
}
