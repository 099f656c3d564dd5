/** The records the blog parser reads and produces: the authoring form
    (`SimpleBlogEntry`, `SimpleSection`, `SimpleCodeBlock`) and the parsed
    form (`BlogEntry`, `Section`, `CodeBlock`, `CodeChunk`). Optional
    TypeScript properties (`x?: T`) become `Option<T>`. */
module BlogTypes {

  datatype Option<T> = None | Some(value: T)

  /** A JavaScript string used as a condition: `undefined` and `''` are falsy. */
  predicate Truthy(s: Option<string>) {
    s.Some? && s.value != ""
  }

  /** `ChunkType`; the parser never produces `Meta`. */
  datatype ChunkType = Context | Added | Removed | Meta

  /** `CodeChunk` without the unused `startLine` and `note`. */
  datatype Chunk = Chunk(kind: ChunkType, lines: seq<string>)

  datatype EntryMeta = EntryMeta(date: string, tags: seq<string>)

  /** Authoring form of a code block: `code` holds the diff-marked text. */
  datatype SimpleCodeBlock = SimpleCodeBlock(
    id: string,
    language: string,
    filePath: Option<string>,
    isLast: Option<bool>,
    code: string,
    fullCode: Option<string>)

  datatype SimpleSection = SimpleSection(
    id: string,
    heading: string,
    content: string,
    codeBlocks: Option<seq<SimpleCodeBlock>>)

  datatype SimpleBlogEntry = SimpleBlogEntry(
    id: string,
    title: string,
    meta: EntryMeta,
    sections: seq<SimpleSection>)

  /** Parsed `CodeBlock` without the unused `fullOriginal` and `hunks`;
      `fullModified` is the one field assigned after construction. */
  datatype CodeBlock = CodeBlock(
    id: string,
    language: string,
    filePath: Option<string>,
    isLast: Option<bool>,
    chunks: seq<Chunk>,
    fullModified: Option<string>)

  /** Parsed `Section`; the parser always fills heading, content and the
      code-block list, so they are not optional here. */
  datatype Section = Section(
    id: string,
    heading: string,
    content: string,
    codeBlocks: seq<CodeBlock>)

  datatype BlogEntry = BlogEntry(
    id: string,
    title: string,
    meta: EntryMeta,
    sections: seq<Section>)

  /** The file key a block is grouped under: `filePath ?? 'unnamed'`
      (an empty path is kept, since `??` only replaces a missing one). */
  function FileKey(filePath: Option<string>): string {
    match filePath
    case Some(p) => p
    case None => "unnamed"
  }

  /** `codeBlocks ?? []`. */
  function BlocksOrEmpty(blocks: Option<seq<SimpleCodeBlock>>): seq<SimpleCodeBlock> {
    match blocks
    case Some(bs) => bs
    case None => []
  }

  /** A position in document order: section index, then block index. */
  datatype Pos = Pos(section: nat, block: nat)

  predicate Before(p: Pos, q: Pos) {
    p.section < q.section || (p.section == q.section && p.block < q.block)
  }

  predicate ValidPos(secs: seq<Section>, p: Pos) {
    p.section < |secs| && p.block < |secs[p.section].codeBlocks|
  }

  function BlockAt(secs: seq<Section>, p: Pos): CodeBlock
    requires ValidPos(secs, p)
  {
    secs[p.section].codeBlocks[p.block]
  }

  /** All code blocks of a document in section-then-block order. */
  function Blocks(secs: seq<Section>): seq<CodeBlock> {
    if secs == [] then [] else Blocks(secs[..|secs| - 1]) + secs[|secs| - 1].codeBlocks
  }

  /** All authoring code blocks in section-then-block order. */
  function SimpleBlocks(secs: seq<SimpleSection>): seq<SimpleCodeBlock> {
    if secs == [] then []
    else SimpleBlocks(secs[..|secs| - 1]) + BlocksOrEmpty(secs[|secs| - 1].codeBlocks)
  }

  lemma BlocksStep(secs: seq<Section>, s: nat)
    requires s < |secs|
    ensures Blocks(secs[..s + 1]) == Blocks(secs[..s]) + secs[s].codeBlocks
  {
    assert secs[..s + 1][..s] == secs[..s];
  }

  lemma SimpleBlocksStep(secs: seq<SimpleSection>, s: nat)
    requires s < |secs|
    ensures SimpleBlocks(secs[..s + 1]) == SimpleBlocks(secs[..s]) + BlocksOrEmpty(secs[s].codeBlocks)
  {
    assert secs[..s + 1][..s] == secs[..s];
  }

  /** One more block of a section extends the document-order prefix by it. */
  lemma PrefixStep<T>(done: seq<T>, blocks: seq<T>, b: nat)
    requires b < |blocks|
    ensures done + blocks[..b + 1] == (done + blocks[..b]) + [blocks[b]]
    ensures (done + blocks[..b + 1])[..|done + blocks[..b]|] == done + blocks[..b]
  {
    assert blocks[..b + 1] == blocks[..b] + [blocks[b]];
  }
}
