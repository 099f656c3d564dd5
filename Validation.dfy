/** `validateChunksAgainstFullCode`: every non-blank context or removed line
    of a block whose file has an explicit `fullCode` must occur, after
    trimming, somewhere in that full code. A missing line is reported, never
    thrown; the report that the source writes with `console.warn` is returned
    here as a sequence of warnings. */
module Validation {
  import opened Text
  import opened BlogTypes

  /** One mismatch report: the file, the kind of chunk and the line. */
  datatype Warning = Warning(filePath: string, kind: ChunkType, line: string)

  /** `fullLines.some(fullLine => fullLine.trim() === trimmed)`. */
  function SomeTrimmedEquals(fullLines: seq<string>, trimmed: string): (found: bool)
    ensures found <==> exists j :: 0 <= j < |fullLines| && Trim(fullLines[j]) == trimmed
  {
    if fullLines == [] then false
    else
      var rest := SomeTrimmedEquals(fullLines[1..], trimmed);
      assert forall j :: 1 <= j < |fullLines| ==> fullLines[j] == fullLines[1..][j - 1];
      Trim(fullLines[0]) == trimmed || rest
  }

  /** Whether one line of a chunk is reported: it is not blank and no line
      of the full code trims to the same text. */
  predicate Mismatched(fullLines: seq<string>, line: string) {
    Trim(line) != "" && !SomeTrimmedEquals(fullLines, Trim(line))
  }

  /** A line is reported exactly when it is not all whitespace and differs,
      after trimming, from every trimmed line of the full code. */
  lemma MismatchedMeaning(fullLines: seq<string>, line: string)
    ensures Mismatched(fullLines, line)
        <==> !AllWhitespace(line) && forall j :: 0 <= j < |fullLines| ==> Trim(fullLines[j]) != Trim(line)
  {
    TrimSpec(line);
  }

  /** Reports for the lines of one chunk, in order. */
  function LineWarnings(path: string, fullLines: seq<string>, kind: ChunkType, lines: seq<string>): seq<Warning> {
    if lines == [] then []
    else
      var line := lines[|lines| - 1];
      LineWarnings(path, fullLines, kind, lines[..|lines| - 1])
        + (if Mismatched(fullLines, line) then [Warning(path, kind, line)] else [])
  }

  /** Reports for the chunks of one block; added chunks are skipped. */
  function ChunkWarnings(path: string, fullLines: seq<string>, cs: seq<Chunk>): seq<Warning> {
    if cs == [] then []
    else
      var c := cs[|cs| - 1];
      ChunkWarnings(path, fullLines, cs[..|cs| - 1])
        + (if c.kind == Added then [] else LineWarnings(path, fullLines, c.kind, c.lines))
  }

  /** Reports for one block: none unless it has a path with explicit full code. */
  function BlockWarnings(b: CodeBlock, explicit: map<string, string>): seq<Warning> {
    if !Truthy(b.filePath) then []
    else
      var path := b.filePath.value;
      if path !in explicit || explicit[path] == "" then []
      else ChunkWarnings(path, Split(explicit[path]), b.chunks)
  }

  /** Reports for blocks in document order: the specification of the pass. */
  function Warnings(bs: seq<CodeBlock>, explicit: map<string, string>): seq<Warning> {
    if bs == [] then []
    else Warnings(bs[..|bs| - 1], explicit) + BlockWarnings(bs[|bs| - 1], explicit)
  }

  /** The condition under which the pass reports `w` for block `b`. */
  predicate Reported(b: CodeBlock, explicit: map<string, string>, w: Warning) {
    && Truthy(b.filePath)
    && w.filePath == b.filePath.value
    && w.filePath in explicit
    && explicit[w.filePath] != ""
    && w.kind != Added
    && InSomeChunk(b.chunks, w.kind, w.line)
    && Mismatched(Split(explicit[w.filePath]), w.line)
  }

  lemma {:induction false} LineWarningsMember(path: string, fullLines: seq<string>, kind: ChunkType, lines: seq<string>, w: Warning)
    ensures w in LineWarnings(path, fullLines, kind, lines)
        <==> w.filePath == path && w.kind == kind && w.line in lines && Mismatched(fullLines, w.line)
  {
    if lines != [] {
      var init, line := lines[..|lines| - 1], lines[|lines| - 1];
      var tail := if Mismatched(fullLines, line) then [Warning(path, kind, line)] else [];
      assert LineWarnings(path, fullLines, kind, lines) == LineWarnings(path, fullLines, kind, init) + tail;
      LineWarningsMember(path, fullLines, kind, init, w);
      assert lines == init + [line];
      assert w.line in lines <==> w.line in init || w.line == line;
      assert w in tail <==> w == Warning(path, kind, line) && Mismatched(fullLines, line);
    }
  }

  /** Counting repeats: `w` is reported once for every occurrence of its
      line in the chunk when that line is flagged, and never otherwise. */
  lemma {:induction false} LineWarningsCount(path: string, fullLines: seq<string>, kind: ChunkType, lines: seq<string>, w: Warning)
    ensures multiset(LineWarnings(path, fullLines, kind, lines))[w]
         == if w.filePath == path && w.kind == kind && Mismatched(fullLines, w.line) then multiset(lines)[w.line] else 0
  {
    if lines != [] {
      var init, line := lines[..|lines| - 1], lines[|lines| - 1];
      var tail := if Mismatched(fullLines, line) then [Warning(path, kind, line)] else [];
      assert LineWarnings(path, fullLines, kind, lines) == LineWarnings(path, fullLines, kind, init) + tail;
      LineWarningsCount(path, fullLines, kind, init, w);
      assert lines == init + [line];
      assert multiset(lines) == multiset(init) + multiset{line};
    }
  }

  /** Some chunk of kind `kind` holds `line`. */
  predicate InSomeChunk(cs: seq<Chunk>, kind: ChunkType, line: string) {
    exists i :: 0 <= i < |cs| && cs[i].kind == kind && line in cs[i].lines
  }

  lemma InSomeChunkSnoc(cs: seq<Chunk>, kind: ChunkType, line: string)
    requires cs != []
    ensures InSomeChunk(cs, kind, line)
        <==> InSomeChunk(cs[..|cs| - 1], kind, line)
             || (cs[|cs| - 1].kind == kind && line in cs[|cs| - 1].lines)
  {
    var init := cs[..|cs| - 1];
    if InSomeChunk(cs, kind, line) {
      var i :| 0 <= i < |cs| && cs[i].kind == kind && line in cs[i].lines;
      if i < |init| {
        assert init[i] == cs[i];
      }
    }
    if InSomeChunk(init, kind, line) {
      var i :| 0 <= i < |init| && init[i].kind == kind && line in init[i].lines;
      assert cs[i] == init[i];
    }
  }

  lemma {:induction false} ChunkWarningsMember(path: string, fullLines: seq<string>, cs: seq<Chunk>, w: Warning)
    ensures w in ChunkWarnings(path, fullLines, cs)
        <==> && w.filePath == path && w.kind != Added
             && InSomeChunk(cs, w.kind, w.line)
             && Mismatched(fullLines, w.line)
  {
    if cs != [] {
      var init, c := cs[..|cs| - 1], cs[|cs| - 1];
      var tail := if c.kind == Added then [] else LineWarnings(path, fullLines, c.kind, c.lines);
      assert ChunkWarnings(path, fullLines, cs) == ChunkWarnings(path, fullLines, init) + tail;
      ChunkWarningsMember(path, fullLines, init, w);
      LineWarningsMember(path, fullLines, c.kind, c.lines, w);
      InSomeChunkSnoc(cs, w.kind, w.line);
    }
  }

  /** The pass reports `w` for block `b` exactly when `b` has a path with
      explicit full code, `w` names a non-blank line of a non-added chunk
      of `b`, and no line of the full code trims to the same text. */
  lemma BlockWarningsMember(b: CodeBlock, explicit: map<string, string>, w: Warning)
    ensures w in BlockWarnings(b, explicit) <==> Reported(b, explicit, w)
  {
    if Truthy(b.filePath) && b.filePath.value in explicit && explicit[b.filePath.value] != "" {
      ChunkWarningsMember(b.filePath.value, Split(explicit[b.filePath.value]), b.chunks, w);
    }
  }

  /** Some block of `bs` has `w` reported. */
  predicate ReportedInSome(bs: seq<CodeBlock>, explicit: map<string, string>, w: Warning) {
    exists i :: 0 <= i < |bs| && Reported(bs[i], explicit, w)
  }

  /** The pass over a document reports `w` exactly when some block has it
      reported. */
  lemma {:induction false} WarningsMember(bs: seq<CodeBlock>, explicit: map<string, string>, w: Warning)
    ensures w in Warnings(bs, explicit) <==> ReportedInSome(bs, explicit, w)
  {
    if bs != [] {
      var init, b := bs[..|bs| - 1], bs[|bs| - 1];
      assert Warnings(bs, explicit) == Warnings(init, explicit) + BlockWarnings(b, explicit);
      WarningsMember(init, explicit, w);
      BlockWarningsMember(b, explicit, w);
      ReportedInSomeSnoc(bs, explicit, w);
    }
  }

  lemma ReportedInSomeSnoc(bs: seq<CodeBlock>, explicit: map<string, string>, w: Warning)
    requires bs != []
    ensures ReportedInSome(bs, explicit, w)
        <==> ReportedInSome(bs[..|bs| - 1], explicit, w) || Reported(bs[|bs| - 1], explicit, w)
  {
    var init := bs[..|bs| - 1];
    if ReportedInSome(bs, explicit, w) {
      var i :| 0 <= i < |bs| && Reported(bs[i], explicit, w);
      if i < |init| {
        assert init[i] == bs[i];
      }
    }
    if ReportedInSome(init, explicit, w) {
      var i :| 0 <= i < |init| && Reported(init[i], explicit, w);
      assert bs[i] == init[i];
    }
  }

  /** Without explicit full code nothing is ever reported. */
  lemma {:induction false} NoExplicitNoWarnings(bs: seq<CodeBlock>)
    ensures Warnings(bs, map[]) == []
  {
    if bs != [] {
      NoExplicitNoWarnings(bs[..|bs| - 1]);
    }
  }

  lemma LineWarningsStep(path: string, fullLines: seq<string>, kind: ChunkType, lines: seq<string>, l: nat)
    requires l < |lines|
    ensures LineWarnings(path, fullLines, kind, lines[..l + 1])
         == LineWarnings(path, fullLines, kind, lines[..l])
            + (if Mismatched(fullLines, lines[l]) then [Warning(path, kind, lines[l])] else [])
  {
    assert lines[..l + 1][..l] == lines[..l];
  }

  lemma ChunkWarningsStep(path: string, fullLines: seq<string>, cs: seq<Chunk>, c: nat)
    requires c < |cs|
    ensures ChunkWarnings(path, fullLines, cs[..c + 1])
         == ChunkWarnings(path, fullLines, cs[..c])
            + (if cs[c].kind == Added then [] else LineWarnings(path, fullLines, cs[c].kind, cs[c].lines))
  {
    assert cs[..c + 1][..c] == cs[..c];
  }

  /** The nested loops of `validateChunksAgainstFullCode`. */
  method ValidateChunksAgainstFullCode(parsed: BlogEntry, explicit: map<string, string>)
    returns (warnings: seq<Warning>)
    ensures warnings == Warnings(Blocks(parsed.sections), explicit)
  {
    var secs := parsed.sections;
    warnings := [];
    for s := 0 to |secs|
      invariant warnings == Warnings(Blocks(secs[..s]), explicit)
    {
      var blocks := secs[s].codeBlocks;
      assert Blocks(secs[..s]) + blocks[..0] == Blocks(secs[..s]);
      for b := 0 to |blocks|
        invariant warnings == Warnings(Blocks(secs[..s]) + blocks[..b], explicit)
      {
        PrefixStep(Blocks(secs[..s]), blocks, b);
        var blockWarnings := CheckBlock(blocks[b], explicit);
        warnings := warnings + blockWarnings;
      }
      assert blocks[..|blocks|] == blocks;
      BlocksStep(secs, s);
    }
    assert secs[..|secs|] == secs;
  }

  /** The body of the block loop in `validateChunksAgainstFullCode`: the
      chunk and line loops for one code block. */
  method CheckBlock(block: CodeBlock, explicit: map<string, string>) returns (warnings: seq<Warning>)
    ensures warnings == BlockWarnings(block, explicit)
  {
    warnings := [];
    if !Truthy(block.filePath) {
      return;
    }
    var filePath := block.filePath.value;
    if filePath !in explicit || explicit[filePath] == "" {
      return;
    }
    var fullLines := Split(explicit[filePath]);
    var chunks := block.chunks;
    for c := 0 to |chunks|
      invariant warnings == ChunkWarnings(filePath, fullLines, chunks[..c])
    {
      ChunkWarningsStep(filePath, fullLines, chunks, c);
      var chunk := chunks[c];
      if chunk.kind == Added {
        continue;
      }
      ghost var before := warnings;
      for l := 0 to |chunk.lines|
        invariant warnings == before + LineWarnings(filePath, fullLines, chunk.kind, chunk.lines[..l])
      {
        LineWarningsStep(filePath, fullLines, chunk.kind, chunk.lines, l);
        var line := chunk.lines[l];
        var trimmedLine := Trim(line);
        if trimmedLine == "" {
          assert !Mismatched(fullLines, line);
          continue;
        }
        var found := SomeTrimmedEquals(fullLines, trimmedLine);
        if !found {
          assert Mismatched(fullLines, line);
          warnings := warnings + [Warning(filePath, chunk.kind, line)];
        } else {
          assert !Mismatched(fullLines, line);
        }
      }
      assert chunk.lines[..|chunk.lines|] == chunk.lines;
      assert warnings == before + LineWarnings(filePath, fullLines, chunk.kind, chunk.lines);
    }
    assert chunks[..|chunks|] == chunks;
  }
}
