# Blog diff-syntax parser, modelled in Dafny

The blog site writes code listings in a light diff syntax. A code block's
text has one line per source line. A leading `+` marks an added line, a
leading `-` a removed line, and a leading space or no marker at all a
context line. `src/lib/blogParser.ts` turns such authoring entries into
the rendered form. It:
- cuts each block into chunks, which are maximal runs of lines of one kind;
- reconstructs each file's final content from the chunks of all blocks
  that edit it;
- attaches that content to the last block of each file;
- checks context and removed lines against an authoritative full text
  when the author supplies one.

It also exports the `code` template helper, which dedents listings
written inside template literals.

This project models that file:
- **Text.dfy**: the JavaScript string operations it relies on, each with
  its meaning proved. These are `split('\n')`, `join('\n')`, `trim()`,
  `trimStart()`, `trimEnd()` and the leading-whitespace count.
- **BlogTypes.dfy**: the records of the authoring and the rendered form,
  the file key `filePath ?? 'unnamed'`, and positions in document order.
- **ChunkParser.dfy**: `parseCodeToChunks`. It has a line classifier, a
  pure grouping specification, and the imperative loop proved equal to
  that specification.
- **Reconstruction.dfy**: `getFullCodeFromChunks`.
- **Validation.dfy**: `validateChunksAgainstFullCode`. It returns the
  warnings as a sequence instead of printing them.
- **Assembler.dfy**: `parseSimpleCodeBlock`, `parseSimpleSection` and
  `parseBlogEntry`. Each loop of `parseBlogEntry` is its own method,
  proved against a specification function. The in-place assignment of
  `fullModified` becomes an update of the entry value at the recorded
  (section, block) position.
- **Dedent.dfy**: the `code` helper.
- **Scenarios.dfy**: worked examples of the functions above on concrete
  texts.

On empty input, `"".split('\n')` is `[""]`, so the empty text parses to
one context chunk holding one empty line, and its final content is `""`
(`ChunkParser.ParseEmpty`, `Scenarios.ParseEmptyText`).

## Model

| member | source | states |
|---|---|---|
| Text.Split | src/lib/blogParser.ts:60 | `split('\n')` yields at least one part, and no part contains the separator |
| Text.JoinSplit | src/lib/blogParser.ts:60 | joining the parts of a split with `\n` gives back the original text |
| Text.SplitJoin | src/lib/blogParser.ts:125 | splitting the join of at least one separator-free line gives back exactly those lines |
| Text.SplitAtSeparator | src/lib/blogParser.ts:60 | splitting `a + "\n" + t` gives `a` followed by the parts of `t` |
| Text.TrimStartSpec | src/lib/blogParser.ts:271 | `trimStart` returns a suffix, drops only whitespace, and stops at the first non-whitespace character |
| Text.TrimEndSpec | src/lib/blogParser.ts:271 | `trimEnd` returns a prefix, drops only whitespace, and stops at the last non-whitespace character |
| Text.TrimSpec | src/lib/blogParser.ts:273 | `trim` is empty exactly when the text is all whitespace; otherwise the result begins and ends with non-whitespace |
| Text.Indent | src/lib/blogParser.ts:320 | the leading-whitespace count covers only whitespace and stops at the first non-whitespace character |
| Text.TrimStartDropIndent | src/lib/blogParser.ts:329 | removing part of the leading whitespace does not change `trimStart` or `trim` |
| ChunkParser.Classify | src/lib/blogParser.ts:80-93 | `+` means added and `-` means removed, and both are stripped; a space means context and is stripped; any other line, including the empty one, is context and kept verbatim; the result is never `meta` |
| ChunkParser.ClassifyRender | src/lib/blogParser.ts:80-93 | re-marking a classified line and classifying it again gives the same line (left inverse) |
| ChunkParser.RenderClassify | src/lib/blogParser.ts:80-93 | re-marking a classified line gives back the input, with a space added when the input had no marker |
| ChunkParser.Classified | src/lib/blogParser.ts:76-93 | one classified line per input line, in order |
| ChunkParser.Group | src/lib/blogParser.ts:66-102 | the grouping has no empty chunk, no two adjacent chunks of one kind, at most one chunk per line, and its last chunk has the last line's kind |
| ChunkParser.ExpandGroup | src/lib/blogParser.ts:95-105 | grouping is lossless and order-preserving: the chunks' lines in order are exactly the classified lines |
| ChunkParser.GroupUnique | src/lib/blogParser.ts:95-105 | the grouping is the only well-formed chunking of its lines, so the chunks are the maximal runs |
| ChunkParser.GroupNoMeta | src/lib/blogParser.ts:80-93 | grouping lines that are never `meta` yields no `meta` chunk |
| ChunkParser.ParseChunksSpec | src/lib/blogParser.ts:59-108 | the parse is well formed and has no `meta` chunk; it covers the split, classified lines in order; it has between 1 and #lines chunks |
| ChunkParser.ParseEmpty | src/lib/blogParser.ts:60-107 | the empty text parses to one context chunk holding one empty line |
| ChunkParser.ParseCodeToChunks | src/lib/blogParser.ts:59-108 | the loop with `currentType`/`currentLines` and its flushes returns exactly the grouping of the classified lines |
| Reconstruction.FinalLinesKeptTexts | src/lib/blogParser.ts:114-126 | the final lines are exactly the non-removed lines of the chunks, in order |
| Reconstruction.FinalLinesAppend | src/lib/blogParser.ts:117-123 | reconstruction distributes over concatenation of chunk lists |
| Reconstruction.RemovedChunkIgnored | src/lib/blogParser.ts:119 | inserting a removed chunk anywhere leaves the final content unchanged |
| Reconstruction.WithoutRemovedSameFinal | src/lib/blogParser.ts:119 | deleting every removed chunk leaves the final content unchanged |
| Reconstruction.FinalLinesFromKeptChunks | src/lib/blogParser.ts:117-123 | every final line comes from a chunk that is not removed |
| Reconstruction.ParsedFinalLines | src/lib/blogParser.ts:59-126 | for a parsed text, the final lines are the marker-stripped lines not marked `-` |
| Reconstruction.FullCodeIdempotent | src/lib/blogParser.ts:114-126 | reading the final content back as one context chunk and reconstructing again gives the same text |
| Reconstruction.GetFullCodeFromChunks | src/lib/blogParser.ts:114-126 | the loop returns the `\n`-join of the lines of every non-removed chunk |
| Validation.SomeTrimmedEquals | src/lib/blogParser.ts:276 | the search succeeds exactly when some full-code line trims to the given text |
| Validation.MismatchedMeaning | src/lib/blogParser.ts:271-278 | a line is flagged exactly when it is not all whitespace and no full-code line has its trimmed form |
| Validation.LineWarningsMember | src/lib/blogParser.ts:270-283 | a warning is in a chunk's reports exactly when it names a flagged line of the chunk with the chunk's path and kind |
| Validation.LineWarningsCount | src/lib/blogParser.ts:270-283 | each such warning is reported once per occurrence of its flagged line in the chunk, and no other warning is reported |
| Validation.ChunkWarningsMember | src/lib/blogParser.ts:267-284 | the chunks produce a warning exactly for each flagged line of a non-added chunk |
| Validation.BlockWarningsMember | src/lib/blogParser.ts:257-285 | a block produces a warning exactly when it has a truthy path with non-empty explicit full code, and the warning names a flagged line of a non-added chunk of the block |
| Validation.WarningsMember | src/lib/blogParser.ts:256-286 | the pass produces a warning exactly when some block produces it |
| Validation.NoExplicitNoWarnings | src/lib/blogParser.ts:259-262 | with no explicit full code nothing is reported |
| Validation.CheckBlock | src/lib/blogParser.ts:257-285 | the per-block loops return that block's warnings in chunk and line order |
| Validation.ValidateChunksAgainstFullCode | src/lib/blogParser.ts:252-287 | the pass returns the warnings of every block in document order, and never changes the entry |
| Assembler.ParseSimpleCodeBlock | src/lib/blogParser.ts:131-141 | the fields are copied; the chunks are a well-formed chunking of the classified lines; `fullModified` starts as the block's own `fullCode` |
| Assembler.ParseSimpleSection | src/lib/blogParser.ts:146-153 | the fields are copied, with one parsed block per authoring block in order; a missing list becomes empty |
| Assembler.ParseSimpleEntry | src/lib/blogParser.ts:188-193 | the fields are copied, with one parsed section per authoring section |
| Assembler.ExplicitFullCodeSpec | src/lib/blogParser.ts:196-203 | a path has explicit full code exactly when some block with truthy path and `fullCode` supplies it; the value is that of the last such block, and is non-empty |
| Assembler.CollectExplicitFullCode | src/lib/blogParser.ts:196-203 | the nested loop builds that map |
| Assembler.FileChunksSpec | src/lib/blogParser.ts:212-222 | exactly the keys that occur are collected; each holds the chunks of all blocks with that key, concatenated in document order |
| Assembler.GroupChunksAppend | src/lib/blogParser.ts:215-221 | accumulation over two stretches of blocks is the first stretch's chunks followed by the second's |
| Assembler.AccumulateSection | src/lib/blogParser.ts:215-221 | a later section's chunks are appended after those of the earlier sections |
| Assembler.CollectFileChunks | src/lib/blogParser.ts:212-222 | the nested loop builds the per-key chunk map |
| Assembler.FullCodeMap | src/lib/blogParser.ts:225-230 | the final-content map has exactly the collected keys |
| Assembler.ComputeFullCodeMap | src/lib/blogParser.ts:225-230 | each key takes its explicit full code if any, otherwise the reconstruction of its accumulated chunks |
| Assembler.LastOfKeyUnique | src/lib/blogParser.ts:233-239 | two blocks that are both last for the same key are the same block |
| Assembler.LastOfKeyExists | src/lib/blogParser.ts:233-239 | every key that occurs has a last block |
| Assembler.LastBlockPerKey | src/lib/blogParser.ts:233-239 | each key in the entry has exactly one last block |
| Assembler.CollectLastBlocks | src/lib/blogParser.ts:233-239 | the recorded position for each key is a valid block with that key and no later block has the key; every key that occurs is recorded |
| Assembler.AttachFullModified | src/lib/blogParser.ts:241-243 | the assignment loop updates `fullModified` of each recorded last block, and no other block changes |
| Assembler.ParseBlogEntry | src/lib/blogParser.ts:187-246 | the result is the assembled entry, and the warnings are those of the validation pass over the parsed blocks |
| Assembler.AssembleShape | src/lib/blogParser.ts:188-193 | the entry keeps the sections, their fields and their number of blocks |
| Assembler.AssembleKeepsBlock | src/lib/blogParser.ts:131-141 | every block of the assembled entry is its own parsed authoring block, apart from `fullModified`; its chunks are unchanged |
| Assembler.AssembleNonLast | src/lib/blogParser.ts:139 | a block that is not the last of its file key keeps `fullModified` equal to its own `fullCode` |
| Assembler.AssembleLast | src/lib/blogParser.ts:196-243 | the last block of a file key gets the key's final content: the explicit full code of the last block supplying one, otherwise the reconstruction of all the key's chunks in document order |
| Assembler.NoExplicitNoEntryWarnings | src/lib/blogParser.ts:196-208 | when no block supplies a truthy `fullCode`, no warning is produced |
| Dedent.DropBlankEnds | src/lib/blogParser.ts:304-312 | a contiguous run of the lines; the first line is dropped exactly when blank; the last remaining line is dropped exactly when it is blank, and no other line is dropped |
| Dedent.MinIndentSpec | src/lib/blogParser.ts:314-324 | the fold is `None` exactly when every line is blank; otherwise it is at most every non-blank line's indentation and equal to one of them |
| Dedent.DedentedSpec | src/lib/blogParser.ts:326-330 | every output line is its input line minus a whitespace-only prefix, trimming to the same text; every blank line becomes `''`; every non-blank line loses the same amount; some non-blank line ends up at column 0 |
| Dedent.Code | src/lib/blogParser.ts:294-333 | the shift/pop, the minimum-indent loop and the map return the dedented, joined text |
| Scenarios.ParseDiff | src/lib/blogParser.ts:59-108 | `"+int x = 1;\n int y = 2;\n-int z = 3;"` parses to an added, a context and a removed chunk of one line each |
| Scenarios.FullCodeDiff | src/lib/blogParser.ts:114-126 | those chunks reconstruct to `"int x = 1;\nint y = 2;"` |
| Scenarios.ParseEmptyText | src/lib/blogParser.ts:59-126 | the empty text gives one context chunk `[""]` and final content `""` |
| Scenarios.ValidateDiffPresent | src/lib/blogParser.ts:252-287 | against `"int y = 2;\nint z = 3;"` that block produces no warning |
| Scenarios.ValidateDiffMissing | src/lib/blogParser.ts:252-287 | against `"int y = 2;"` it produces exactly one warning, for the removed line `int z = 3;` |
| Scenarios.DedentTemplate | src/lib/blogParser.ts:294-333 | `"\n    +a\n     b\n  "` dedents to `"+a\n b"` |

## Left out

- Whitespace is space, tab, carriage return and line feed. The Unicode
  whitespace that `trim()` and the regular expression `\s` also accept is
  not modelled.
- `console.warn` is not modelled. Each warning is a record of path,
  chunk kind and line, returned in order. The message text and its
  50-character truncation of the line are left out.
- The template-literal interpolation of `code` is left out: the helper
  takes the combined string.
- The `Infinity` starting value of the minimum-indent fold is `None`.
- `fullModified` is assigned through shared object references in the
  source. The model records the (section, block) position and updates the
  entry value there. The rendered entry is built fresh inside
  `parseBlogEntry`, so no other object can observe the change.
- Map iteration order is left out. The full-content and attachment loops
  take keys in any order, and their results do not depend on it.
- The `meta` chunk kind exists in the types, but this parser never
  produces it. The chunk fields `startLine` and `note` and the block
  fields `fullOriginal` and `hunks` are never set here and are not
  modelled.
- The React rendering components, the static blog data, the blog
  registry and the shared type file are not part of this model.
