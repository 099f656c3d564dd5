/** `parseBlogEntry`: parses every code block of every section, collects the
    explicit `fullCode` per file path, validates against it, accumulates the
    chunks of each file key across the whole document, and assigns the
    file's final content to `fullModified` of the last block with that key. */
module Assembler {
  import opened Text
  import opened BlogTypes
  import opened ChunkParser
  import opened Reconstruction
  import opened Validation

  // ----- Record construction -------------------------------------------

  /** `parseSimpleCodeBlock`: the block's text is parsed into well-formed
      chunks covering all its lines, `fullModified` starts as the block's
      own `fullCode`, and the other fields are copied. */
  function ParseSimpleCodeBlock(simple: SimpleCodeBlock): (b: CodeBlock)
    ensures b.id == simple.id && b.language == simple.language
    ensures b.filePath == simple.filePath && b.isLast == simple.isLast
    ensures WellFormed(b.chunks) && Expand(b.chunks) == Classified(Split(simple.code))
    ensures b.fullModified == simple.fullCode
  {
    ParseChunksSpec(simple.code);
    CodeBlock(simple.id, simple.language, simple.filePath, simple.isLast,
              ParseChunks(simple.code), simple.fullCode)
  }

  /** `parseSimpleSection`: one parsed block per authoring block, in order;
      a missing block list becomes the empty one. */
  function ParseSimpleSection(simple: SimpleSection): (s: Section)
    ensures s.id == simple.id && s.heading == simple.heading && s.content == simple.content
    ensures |s.codeBlocks| == |BlocksOrEmpty(simple.codeBlocks)|
    ensures forall i :: 0 <= i < |s.codeBlocks| ==>
              s.codeBlocks[i] == ParseSimpleCodeBlock(BlocksOrEmpty(simple.codeBlocks)[i])
  {
    var bs := BlocksOrEmpty(simple.codeBlocks);
    Section(simple.id, simple.heading, simple.content,
            seq(|bs|, i requires 0 <= i < |bs| => ParseSimpleCodeBlock(bs[i])))
  }

  /** The `parsed` entry before any `fullModified` is assigned. */
  function ParseSimpleEntry(simple: SimpleBlogEntry): (e: BlogEntry)
    ensures e.id == simple.id && e.title == simple.title && e.meta == simple.meta
    ensures |e.sections| == |simple.sections|
    ensures forall i :: 0 <= i < |e.sections| ==> e.sections[i] == ParseSimpleSection(simple.sections[i])
  {
    BlogEntry(simple.id, simple.title, simple.meta,
              seq(|simple.sections|, i requires 0 <= i < |simple.sections| => ParseSimpleSection(simple.sections[i])))
  }

  // ----- Explicit full code --------------------------------------------

  /** Block `b` supplies explicit full code for `path`: both its `fullCode`
      and its `filePath` are truthy and the path is `path`. */
  predicate Supplies(b: SimpleCodeBlock, path: string) {
    Truthy(b.fullCode) && Truthy(b.filePath) && b.filePath.value == path
  }

  /** The `explicitFullCode` map after visiting `bs` in order. */
  function ExplicitFullCode(bs: seq<SimpleCodeBlock>): map<string, string> {
    if bs == [] then map[]
    else
      var m := ExplicitFullCode(bs[..|bs| - 1]);
      var b := bs[|bs| - 1];
      if Truthy(b.fullCode) && Truthy(b.filePath) then m[b.filePath.value := b.fullCode.value] else m
  }

  /** Block `i` is the last block of `bs` supplying full code for `path`. */
  predicate LastSupplier(bs: seq<SimpleCodeBlock>, path: string, i: int) {
    && 0 <= i < |bs|
    && Supplies(bs[i], path)
    && forall j :: i < j < |bs| ==> !Supplies(bs[j], path)
  }

  predicate SuppliedIn(bs: seq<SimpleCodeBlock>, path: string) {
    exists i :: 0 <= i < |bs| && Supplies(bs[i], path)
  }

  /** A path has explicit full code exactly when some block supplies it,
      and then it is the `fullCode` of the last block that does. */
  lemma {:induction false} ExplicitFullCodeSpec(bs: seq<SimpleCodeBlock>, path: string)
    ensures path in ExplicitFullCode(bs) <==> SuppliedIn(bs, path)
    ensures path in ExplicitFullCode(bs) ==>
              exists i :: LastSupplier(bs, path, i) && ExplicitFullCode(bs)[path] == bs[i].fullCode.value
    ensures path in ExplicitFullCode(bs) ==> ExplicitFullCode(bs)[path] != ""
  {
    if bs != [] {
      var init, b := bs[..|bs| - 1], bs[|bs| - 1];
      ExplicitFullCodeSpec(init, path);
      if Supplies(b, path) {
        assert LastSupplier(bs, path, |bs| - 1);
      } else {
        assert path in ExplicitFullCode(bs) <==> path in ExplicitFullCode(init);
        assert path in ExplicitFullCode(bs) ==> ExplicitFullCode(bs)[path] == ExplicitFullCode(init)[path];
        if SuppliedIn(bs, path) {
          var i :| 0 <= i < |bs| && Supplies(bs[i], path);
          assert init[i] == bs[i];
        }
        if SuppliedIn(init, path) {
          var i :| 0 <= i < |init| && Supplies(init[i], path);
          assert bs[i] == init[i];
        }
        if path in ExplicitFullCode(bs) {
          var i :| LastSupplier(init, path, i) && ExplicitFullCode(init)[path] == init[i].fullCode.value;
          assert bs[i] == init[i];
          assert LastSupplier(bs, path, i);
        }
      }
    }
  }

  lemma ExplicitFullCodeSnoc(bs: seq<SimpleCodeBlock>, b: SimpleCodeBlock)
    ensures ExplicitFullCode(bs + [b])
         == if Truthy(b.fullCode) && Truthy(b.filePath)
            then ExplicitFullCode(bs)[b.filePath.value := b.fullCode.value]
            else ExplicitFullCode(bs)
  {
    assert (bs + [b])[..|bs|] == bs;
  }

  /** The first loop of `parseBlogEntry`. */
  method CollectExplicitFullCode(sections: seq<SimpleSection>) returns (explicit: map<string, string>)
    ensures explicit == ExplicitFullCode(SimpleBlocks(sections))
  {
    explicit := map[];
    for s := 0 to |sections|
      invariant explicit == ExplicitFullCode(SimpleBlocks(sections[..s]))
    {
      var blocks := BlocksOrEmpty(sections[s].codeBlocks);
      assert SimpleBlocks(sections[..s]) + blocks[..0] == SimpleBlocks(sections[..s]);
      for b := 0 to |blocks|
        invariant explicit == ExplicitFullCode(SimpleBlocks(sections[..s]) + blocks[..b])
      {
        PrefixStep(SimpleBlocks(sections[..s]), blocks, b);
        ExplicitFullCodeSnoc(SimpleBlocks(sections[..s]) + blocks[..b], blocks[b]);
        var codeBlock := blocks[b];
        if Truthy(codeBlock.fullCode) && Truthy(codeBlock.filePath) {
          explicit := explicit[codeBlock.filePath.value := codeBlock.fullCode.value];
        }
      }
      assert blocks[..|blocks|] == blocks;
      SimpleBlocksStep(sections, s);
    }
    assert sections[..|sections|] == sections;
  }

  // ----- Accumulating chunks per file -----------------------------------

  /** The file key of a parsed block. */
  function Key(b: CodeBlock): string {
    FileKey(b.filePath)
  }

  /** The chunks of every block with key `key`, concatenated in order. */
  function GroupChunks(bs: seq<CodeBlock>, key: string): seq<Chunk> {
    if bs == [] then []
    else
      var b := bs[|bs| - 1];
      GroupChunks(bs[..|bs| - 1], key) + (if Key(b) == key then b.chunks else [])
  }

  /** The `fileChunks` map after visiting `bs` in order. */
  function FileChunks(bs: seq<CodeBlock>): map<string, seq<Chunk>> {
    if bs == [] then map[]
    else
      var m := FileChunks(bs[..|bs| - 1]);
      var b := bs[|bs| - 1];
      var existing := if Key(b) in m then m[Key(b)] else [];
      m[Key(b) := existing + b.chunks]
  }

  predicate HasKey(bs: seq<CodeBlock>, key: string) {
    exists i :: 0 <= i < |bs| && Key(bs[i]) == key
  }

  /** Every key that occurs is in the map, no other is, and its entry is the
      concatenation of the chunks of all blocks with that key, in order. */
  lemma {:induction false} FileChunksSpec(bs: seq<CodeBlock>, key: string)
    ensures key in FileChunks(bs) <==> HasKey(bs, key)
    ensures key in FileChunks(bs) ==> FileChunks(bs)[key] == GroupChunks(bs, key)
  {
    if bs != [] {
      var init, b := bs[..|bs| - 1], bs[|bs| - 1];
      FileChunksSpec(init, key);
      assert GroupChunks(bs, key) == GroupChunks(init, key) + (if Key(b) == key then b.chunks else []);
      if Key(b) != key {
        if HasKey(bs, key) {
          var i :| 0 <= i < |bs| && Key(bs[i]) == key;
          assert init[i] == bs[i];
        }
      } else {
        assert HasKey(bs, key);
      }
      if Key(b) == key && !HasKey(init, key) {
        NoKeyNoChunks(init, key);
      }
      if Key(b) != key {
        assert GroupChunks(bs, key) == GroupChunks(init, key) + [];
        assert GroupChunks(init, key) + [] == GroupChunks(init, key);
      }
    }
  }

  lemma {:induction false} NoKeyNoChunks(bs: seq<CodeBlock>, key: string)
    requires !HasKey(bs, key)
    ensures GroupChunks(bs, key) == []
  {
    if bs != [] {
      var init := bs[..|bs| - 1];
      forall i | 0 <= i < |init|
        ensures Key(init[i]) != key
      {
        assert init[i] == bs[i];
      }
      NoKeyNoChunks(init, key);
    }
  }

  /** Accumulation follows document order: the chunks of a key over two
      consecutive stretches of blocks are those of the first, then those of
      the second. */
  lemma {:induction false} GroupChunksAppend(a: seq<CodeBlock>, b: seq<CodeBlock>, key: string)
    ensures GroupChunks(a + b, key) == GroupChunks(a, key) + GroupChunks(b, key)
    decreases |b|
  {
    if b == [] {
      assert a + b == a;
    } else {
      GroupChunksAppend(a, b[..|b| - 1], key);
      assert (a + b)[..|a + b| - 1] == a + b[..|b| - 1];
    }
  }

  lemma FileChunksSnoc(bs: seq<CodeBlock>, b: CodeBlock)
    ensures FileChunks(bs + [b])
         == FileChunks(bs)[Key(b) := (if Key(b) in FileChunks(bs) then FileChunks(bs)[Key(b)] else []) + b.chunks]
  {
    assert (bs + [b])[..|bs|] == bs;
  }

  /** The second loop of `parseBlogEntry` (collecting chunks per file). */
  method CollectFileChunks(secs: seq<Section>) returns (fileChunks: map<string, seq<Chunk>>)
    ensures fileChunks == FileChunks(Blocks(secs))
  {
    fileChunks := map[];
    for s := 0 to |secs|
      invariant fileChunks == FileChunks(Blocks(secs[..s]))
    {
      var blocks := secs[s].codeBlocks;
      assert Blocks(secs[..s]) + blocks[..0] == Blocks(secs[..s]);
      for b := 0 to |blocks|
        invariant fileChunks == FileChunks(Blocks(secs[..s]) + blocks[..b])
      {
        PrefixStep(Blocks(secs[..s]), blocks, b);
        FileChunksSnoc(Blocks(secs[..s]) + blocks[..b], blocks[b]);
        var codeBlock := blocks[b];
        var filePath := FileKey(codeBlock.filePath);
        var existing := if filePath in fileChunks then fileChunks[filePath] else [];
        existing := existing + codeBlock.chunks;
        fileChunks := fileChunks[filePath := existing];
      }
      assert blocks[..|blocks|] == blocks;
      BlocksStep(secs, s);
    }
    assert secs[..|secs|] == secs;
  }

  // ----- Final content per file -----------------------------------------

  /** The `fullCodeMap`: explicit full code where there is some, otherwise
      the content reconstructed from the file's accumulated chunks. */
  function FullCodeMap(fileChunks: map<string, seq<Chunk>>, explicit: map<string, string>): (m: map<string, string>)
    ensures m.Keys == fileChunks.Keys
  {
    map k | k in fileChunks :: if k in explicit then explicit[k] else FullCode(fileChunks[k])
  }

  /** The third loop of `parseBlogEntry`. */
  method ComputeFullCodeMap(fileChunks: map<string, seq<Chunk>>, explicit: map<string, string>)
    returns (fullCodeMap: map<string, string>)
    ensures fullCodeMap == FullCodeMap(fileChunks, explicit)
  {
    fullCodeMap := map[];
    var todo := fileChunks.Keys;
    while todo != {}
      invariant todo <= fileChunks.Keys
      invariant fullCodeMap.Keys == fileChunks.Keys - todo
      invariant forall k :: k in fullCodeMap ==>
                  fullCodeMap[k] == if k in explicit then explicit[k] else FullCode(fileChunks[k])
      decreases todo
    {
      var filePath :| filePath in todo;
      var value: string;
      if filePath in explicit {
        value := explicit[filePath];
      } else {
        value := GetFullCodeFromChunks(fileChunks[filePath]);
      }
      fullCodeMap := fullCodeMap[filePath := value];
      todo := todo - {filePath};
    }
  }

  // ----- The last block of each file ------------------------------------

  /** The block at `p` is the last one in document order with its key. */
  ghost predicate LastOfKey(secs: seq<Section>, p: Pos)
    requires ValidPos(secs, p)
  {
    forall q :: ValidPos(secs, q) && Before(p, q) ==> Key(BlockAt(secs, q)) != Key(BlockAt(secs, p))
  }

  /** At most one block per key is the last. */
  lemma LastOfKeyUnique(secs: seq<Section>, p: Pos, q: Pos)
    requires ValidPos(secs, p) && ValidPos(secs, q)
    requires LastOfKey(secs, p) && LastOfKey(secs, q)
    requires Key(BlockAt(secs, p)) == Key(BlockAt(secs, q))
    ensures p == q
  {
  }

  /** The blocks after `p` that share its key. */
  ghost function LaterSameKey(secs: seq<Section>, p: Pos): set<Pos>
    requires ValidPos(secs, p)
  {
    set s, b | 0 <= s < |secs| && 0 <= b < |secs[s].codeBlocks|
                 && Before(p, Pos(s, b))
                 && Key(secs[s].codeBlocks[b]) == Key(BlockAt(secs, p)) :: Pos(s, b)
  }

  /** At least one block per key is the last. */
  lemma {:induction false} LastOfKeyExists(secs: seq<Section>, p: Pos) returns (q: Pos)
    requires ValidPos(secs, p)
    ensures ValidPos(secs, q) && LastOfKey(secs, q)
    ensures Key(BlockAt(secs, q)) == Key(BlockAt(secs, p))
    decreases |LaterSameKey(secs, p)|
  {
    var later := LaterSameKey(secs, p);
    if later == {} {
      forall r | ValidPos(secs, r) && Before(p, r)
        ensures Key(BlockAt(secs, r)) != Key(BlockAt(secs, p))
      {
        assert Key(BlockAt(secs, r)) == Key(BlockAt(secs, p)) ==> Pos(r.section, r.block) in later;
      }
      q := p;
    } else {
      var r :| r in later;
      assert ValidPos(secs, r) && Before(p, r) && Key(BlockAt(secs, r)) == Key(BlockAt(secs, p));
      forall t | t in LaterSameKey(secs, r)
        ensures t in later
      {
        assert ValidPos(secs, t) && Before(r, t);
      }
      assert r !in LaterSameKey(secs, r);
      StrictSubsetSmaller(LaterSameKey(secs, r), later);
      q := LastOfKeyExists(secs, r);
    }
  }

  lemma {:induction false} SubsetNoLarger<T>(a: set<T>, b: set<T>)
    requires a <= b
    ensures |a| <= |b|
    decreases a
  {
    if a != {} {
      var y :| y in a;
      SubsetNoLarger(a - {y}, b - {y});
    }
  }

  lemma StrictSubsetSmaller<T>(a: set<T>, b: set<T>)
    requires a <= b
    requires exists x :: x in b && x !in a
    ensures |a| < |b|
  {
    var x :| x in b && x !in a;
    SubsetNoLarger(a, b - {x});
  }

  /** What the `lastBlockSeen` map holds once every position before `cur`
      has been visited. */
  ghost predicate LastSeenUpTo(secs: seq<Section>, last: map<string, Pos>, cur: Pos) {
    && (forall k :: k in last ==>
          && ValidPos(secs, last[k])
          && Before(last[k], cur)
          && Key(BlockAt(secs, last[k])) == k
          && forall q :: ValidPos(secs, q) && Before(last[k], q) && Before(q, cur) ==> Key(BlockAt(secs, q)) != k)
    && (forall q :: ValidPos(secs, q) && Before(q, cur) ==> Key(BlockAt(secs, q)) in last)
  }

  lemma LastSeenStep(secs: seq<Section>, last: map<string, Pos>, p: Pos)
    requires ValidPos(secs, p) && LastSeenUpTo(secs, last, p)
    ensures LastSeenUpTo(secs, last[Key(BlockAt(secs, p)) := p], Pos(p.section, p.block + 1))
  {
  }

  lemma LastSeenNextSection(secs: seq<Section>, last: map<string, Pos>, s: nat)
    requires s < |secs| && LastSeenUpTo(secs, last, Pos(s, |secs[s].codeBlocks|))
    ensures LastSeenUpTo(secs, last, Pos(s + 1, 0))
  {
  }

  /** The fourth loop of `parseBlogEntry`: for every key, the position of
      the last block carrying it. */
  method CollectLastBlocks(secs: seq<Section>) returns (last: map<string, Pos>)
    ensures forall k :: k in last ==>
              ValidPos(secs, last[k]) && Key(BlockAt(secs, last[k])) == k && LastOfKey(secs, last[k])
    ensures forall p :: ValidPos(secs, p) ==> Key(BlockAt(secs, p)) in last
  {
    last := map[];
    for s := 0 to |secs|
      invariant LastSeenUpTo(secs, last, Pos(s, 0))
    {
      var blocks := secs[s].codeBlocks;
      for b := 0 to |blocks|
        invariant LastSeenUpTo(secs, last, Pos(s, b))
      {
        LastSeenStep(secs, last, Pos(s, b));
        var filePath := FileKey(blocks[b].filePath);
        last := last[filePath := Pos(s, b)];
      }
      LastSeenNextSection(secs, last, s);
    }
    assert LastSeenUpTo(secs, last, Pos(|secs|, 0));
  }

  // ----- Attaching the final content ------------------------------------

  function Lookup(m: map<string, string>, k: string): Option<string> {
    if k in m then Some(m[k]) else None
  }

  /** The block at `p` after attachment: the last block of its key gets the
      key's entry of `fullCodeMap`, every other block is unchanged. */
  ghost function AttachBlock(secs: seq<Section>, p: Pos, fullCodeMap: map<string, string>): CodeBlock
    requires ValidPos(secs, p)
  {
    var blk := BlockAt(secs, p);
    if LastOfKey(secs, p) then blk.(fullModified := Lookup(fullCodeMap, Key(blk))) else blk
  }

  /** The entry after the attachment loop. */
  ghost function Attach(e: BlogEntry, fullCodeMap: map<string, string>): BlogEntry {
    var secs := e.sections;
    e.(sections := seq(|secs|, s requires 0 <= s < |secs| =>
         secs[s].(codeBlocks := seq(|secs[s].codeBlocks|, b requires 0 <= b < |secs[s].codeBlocks| =>
           AttachBlock(secs, Pos(s, b), fullCodeMap)))))
  }

  /** `r` has the sections and blocks of `e`, differing at most in the
      blocks' `fullModified`. */
  ghost predicate SameShape(e: BlogEntry, r: BlogEntry) {
    && r.(sections := e.sections) == e
    && |r.sections| == |e.sections|
    && forall s :: 0 <= s < |e.sections| ==>
         && r.sections[s].(codeBlocks := e.sections[s].codeBlocks) == e.sections[s]
         && |r.sections[s].codeBlocks| == |e.sections[s].codeBlocks|
  }

  /** The last loop of `parseBlogEntry`: `codeBlock.fullModified = ...` for
      the block recorded for each key. */
  method AttachFullModified(parsed: BlogEntry, last: map<string, Pos>, fullCodeMap: map<string, string>)
    returns (result: BlogEntry)
    requires forall k :: k in last ==>
               ValidPos(parsed.sections, last[k]) && Key(BlockAt(parsed.sections, last[k])) == k
               && LastOfKey(parsed.sections, last[k])
    requires forall p :: ValidPos(parsed.sections, p) ==> Key(BlockAt(parsed.sections, p)) in last
    ensures result == Attach(parsed, fullCodeMap)
  {
    result := parsed;
    var todo := last.Keys;
    while todo != {}
      invariant todo <= last.Keys
      invariant AttachedExcept(parsed, result, last, todo, fullCodeMap)
      decreases todo
    {
      var filePath :| filePath in todo;
      var p := last[filePath];
      var section := result.sections[p.section];
      var codeBlock := section.codeBlocks[p.block];
      codeBlock := codeBlock.(fullModified := Lookup(fullCodeMap, filePath));
      section := section.(codeBlocks := section.codeBlocks[p.block := codeBlock]);
      AttachStep(parsed, result, last, todo, fullCodeMap, filePath);
      result := result.(sections := result.sections[p.section := section]);
      todo := todo - {filePath};
    }
    AttachDone(parsed, result, last, fullCodeMap);
  }

  /** The loop invariant of the attachment loop: the keys no longer in
      `todo` have had their recorded block updated, nothing else has. */
  ghost predicate AttachedExcept(e: BlogEntry, r: BlogEntry, last: map<string, Pos>, todo: set<string>,
                                 fullCodeMap: map<string, string>) {
    && SameShape(e, r)
    && forall p :: ValidPos(e.sections, p) ==>
         BlockAt(r.sections, p)
           == var k := Key(BlockAt(e.sections, p));
              if k in last && k !in todo && last[k] == p
              then BlockAt(e.sections, p).(fullModified := Lookup(fullCodeMap, k))
              else BlockAt(e.sections, p)
  }

  lemma AttachStep(e: BlogEntry, r: BlogEntry, last: map<string, Pos>, todo: set<string>,
                   fullCodeMap: map<string, string>, k: string)
    requires AttachedExcept(e, r, last, todo, fullCodeMap)
    requires k in todo && k in last
    requires ValidPos(e.sections, last[k]) && Key(BlockAt(e.sections, last[k])) == k
    ensures var p := last[k];
            && ValidPos(r.sections, p)
            && var blk := BlockAt(r.sections, p).(fullModified := Lookup(fullCodeMap, k));
               AttachedExcept(e, r.(sections := r.sections[p.section := r.sections[p.section].(codeBlocks :=
                                  r.sections[p.section].codeBlocks[p.block := blk])]),
                              last, todo - {k}, fullCodeMap)
  {
    var p := last[k];
    var blk := BlockAt(r.sections, p).(fullModified := Lookup(fullCodeMap, k));
    UpdateBlock(e, r, p, blk);
  }

  lemma AttachDone(e: BlogEntry, r: BlogEntry, last: map<string, Pos>, fullCodeMap: map<string, string>)
    requires forall k :: k in last ==>
               ValidPos(e.sections, last[k]) && Key(BlockAt(e.sections, last[k])) == k
               && LastOfKey(e.sections, last[k])
    requires forall p :: ValidPos(e.sections, p) ==> Key(BlockAt(e.sections, p)) in last
    requires AttachedExcept(e, r, last, {}, fullCodeMap)
    ensures r == Attach(e, fullCodeMap)
  {
    var secs := e.sections;
    forall p | ValidPos(secs, p)
      ensures BlockAt(r.sections, p) == AttachBlock(secs, p, fullCodeMap)
    {
      var k := Key(BlockAt(secs, p));
      if LastOfKey(secs, p) {
        LastOfKeyUnique(secs, p, last[k]);
      }
    }
    AttachExtensional(e, r, fullCodeMap);
  }

  /** Replacing the `fullModified` of one block keeps the shape and changes
      no other block. */
  lemma UpdateBlock(e: BlogEntry, r: BlogEntry, p: Pos, blk: CodeBlock)
    requires SameShape(e, r) && ValidPos(e.sections, p)
    requires blk == BlockAt(r.sections, p).(fullModified := blk.fullModified)
    ensures var r' := r.(sections := r.sections[p.section := r.sections[p.section].(codeBlocks :=
                           r.sections[p.section].codeBlocks[p.block := blk])]);
            && SameShape(e, r')
            && forall q :: ValidPos(e.sections, q) ==>
                 BlockAt(r'.sections, q) == if q == p then blk else BlockAt(r.sections, q)
  {
  }

  /** An entry of the same shape whose every block is the attached one is
      the attached entry. */
  lemma AttachExtensional(e: BlogEntry, r: BlogEntry, fullCodeMap: map<string, string>)
    requires SameShape(e, r)
    requires forall p :: ValidPos(e.sections, p) ==> BlockAt(r.sections, p) == AttachBlock(e.sections, p, fullCodeMap)
    ensures r == Attach(e, fullCodeMap)
  {
    var secs := e.sections;
    var expected := Attach(e, fullCodeMap);
    forall s | 0 <= s < |secs|
      ensures r.sections[s] == expected.sections[s]
    {
      forall b | 0 <= b < |secs[s].codeBlocks|
        ensures r.sections[s].codeBlocks[b] == expected.sections[s].codeBlocks[b]
      {
        assert BlockAt(r.sections, Pos(s, b)) == AttachBlock(secs, Pos(s, b), fullCodeMap);
      }
    }
  }

  // ----- The whole assembly ---------------------------------------------

  /** The entry `parseBlogEntry` returns. */
  ghost function AssembleEntry(simple: SimpleBlogEntry): BlogEntry {
    var parsed := ParseSimpleEntry(simple);
    var explicit := ExplicitFullCode(SimpleBlocks(simple.sections));
    Attach(parsed, FullCodeMap(FileChunks(Blocks(parsed.sections)), explicit))
  }

  /** The warnings the validation pass of `parseBlogEntry` reports. */
  function EntryWarnings(simple: SimpleBlogEntry): seq<Warning> {
    Warnings(Blocks(ParseSimpleEntry(simple).sections), ExplicitFullCode(SimpleBlocks(simple.sections)))
  }

  /** `parseBlogEntry`: the assembled entry and the validation report. */
  method ParseBlogEntry(simple: SimpleBlogEntry) returns (parsed: BlogEntry, warnings: seq<Warning>)
    ensures parsed == AssembleEntry(simple)
    ensures warnings == EntryWarnings(simple)
  {
    parsed := ParseSimpleEntry(simple);
    var explicitFullCode := CollectExplicitFullCode(simple.sections);
    if |explicitFullCode| > 0 {
      warnings := ValidateChunksAgainstFullCode(parsed, explicitFullCode);
    } else {
      assert explicitFullCode == map[];
      NoExplicitNoWarnings(Blocks(parsed.sections));
      warnings := [];
    }
    var fileChunks := CollectFileChunks(parsed.sections);
    var fullCodeMap := ComputeFullCodeMap(fileChunks, explicitFullCode);
    var lastBlockSeen := CollectLastBlocks(parsed.sections);
    parsed := AttachFullModified(parsed, lastBlockSeen, fullCodeMap);
  }

  // ----- Properties of the assembly -------------------------------------

  /** The authoring block at a position. */
  function SimpleBlockAt(simple: SimpleBlogEntry, p: Pos): SimpleCodeBlock
    requires p.section < |simple.sections| && p.block < |BlocksOrEmpty(simple.sections[p.section].codeBlocks)|
  {
    BlocksOrEmpty(simple.sections[p.section].codeBlocks)[p.block]
  }

  /** The content a file key ends up with: the explicit full code supplied
      for it, otherwise the reconstruction of all its chunks in document
      order. */
  ghost function FinalContent(simple: SimpleBlogEntry, key: string): string {
    var explicit := ExplicitFullCode(SimpleBlocks(simple.sections));
    if key in explicit then explicit[key]
    else FullCode(GroupChunks(Blocks(ParseSimpleEntry(simple).sections), key))
  }

  /** Every block at a valid position takes part in the document-order
      list, so its key is collected. */
  lemma {:induction false} BlockInBlocks(secs: seq<Section>, p: Pos)
    requires ValidPos(secs, p)
    ensures HasKey(Blocks(secs), Key(BlockAt(secs, p)))
  {
    var init := secs[..|secs| - 1];
    if p.section == |secs| - 1 {
      var i := |Blocks(init)| + p.block;
      assert Blocks(secs)[i] == BlockAt(secs, p);
    } else {
      assert BlockAt(init, p) == BlockAt(secs, p);
      BlockInBlocks(init, p);
      var i :| 0 <= i < |Blocks(init)| && Key(Blocks(init)[i]) == Key(BlockAt(secs, p));
      assert Blocks(secs)[i] == Blocks(init)[i];
    }
  }

  /** The entry keeps the structure of the authoring entry. */
  lemma AssembleShape(simple: SimpleBlogEntry)
    ensures var e := AssembleEntry(simple);
            && e.id == simple.id && e.title == simple.title && e.meta == simple.meta
            && |e.sections| == |simple.sections|
            && forall s :: 0 <= s < |e.sections| ==>
                 && e.sections[s].id == simple.sections[s].id
                 && e.sections[s].heading == simple.sections[s].heading
                 && e.sections[s].content == simple.sections[s].content
                 && |e.sections[s].codeBlocks| == |BlocksOrEmpty(simple.sections[s].codeBlocks)|
  {
  }

  /** The block at `p` of the assembled entry is the attached block. */
  lemma AssembledBlockAt(simple: SimpleBlogEntry, p: Pos)
    requires ValidPos(ParseSimpleEntry(simple).sections, p)
    ensures var secs := ParseSimpleEntry(simple).sections;
            var fullCodeMap := FullCodeMap(FileChunks(Blocks(secs)), ExplicitFullCode(SimpleBlocks(simple.sections)));
            && ValidPos(AssembleEntry(simple).sections, p)
            && BlockAt(AssembleEntry(simple).sections, p) == AttachBlock(secs, p, fullCodeMap)
  {
  }

  /** Assembly changes no field of a block other than `fullModified`: every
      block is its own parsed authoring block. */
  lemma AssembleKeepsBlock(simple: SimpleBlogEntry, p: Pos)
    requires p.section < |simple.sections| && p.block < |BlocksOrEmpty(simple.sections[p.section].codeBlocks)|
    ensures ValidPos(AssembleEntry(simple).sections, p)
    ensures BlockAt(AssembleEntry(simple).sections, p).(fullModified := SimpleBlockAt(simple, p).fullCode)
         == ParseSimpleCodeBlock(SimpleBlockAt(simple, p))
  {
    AssembledBlockAt(simple, p);
  }

  /** A block that is not the last of its file keeps its own `fullCode`. */
  lemma AssembleNonLast(simple: SimpleBlogEntry, p: Pos)
    requires p.section < |simple.sections| && p.block < |BlocksOrEmpty(simple.sections[p.section].codeBlocks)|
    requires !LastOfKey(ParseSimpleEntry(simple).sections, p)
    ensures ValidPos(AssembleEntry(simple).sections, p)
    ensures BlockAt(AssembleEntry(simple).sections, p).fullModified == SimpleBlockAt(simple, p).fullCode
  {
    AssembledBlockAt(simple, p);
  }

  /** The last block of a file key gets the key's final content: the
      explicit full code supplied for it if any, otherwise the
      reconstruction of all its chunks in document order. */
  lemma AssembleLast(simple: SimpleBlogEntry, p: Pos)
    requires p.section < |simple.sections| && p.block < |BlocksOrEmpty(simple.sections[p.section].codeBlocks)|
    requires LastOfKey(ParseSimpleEntry(simple).sections, p)
    ensures ValidPos(AssembleEntry(simple).sections, p)
    ensures BlockAt(AssembleEntry(simple).sections, p).fullModified
         == Some(FinalContent(simple, FileKey(SimpleBlockAt(simple, p).filePath)))
  {
    var secs := ParseSimpleEntry(simple).sections;
    AssembledBlockAt(simple, p);
    BlockInBlocks(secs, p);
    FileChunksSpec(Blocks(secs), Key(BlockAt(secs, p)));
  }

  /** Each file key present in the entry has exactly one last block. */
  lemma LastBlockPerKey(secs: seq<Section>, p: Pos)
    requires ValidPos(secs, p)
    ensures exists q :: ValidPos(secs, q) && LastOfKey(secs, q) && Key(BlockAt(secs, q)) == Key(BlockAt(secs, p))
    ensures forall q, r :: ValidPos(secs, q) && ValidPos(secs, r) && LastOfKey(secs, q) && LastOfKey(secs, r)
              && Key(BlockAt(secs, q)) == Key(BlockAt(secs, p)) && Key(BlockAt(secs, r)) == Key(BlockAt(secs, p))
              ==> q == r
  {
    var q := LastOfKeyExists(secs, p);
    forall q, r | ValidPos(secs, q) && ValidPos(secs, r) && LastOfKey(secs, q) && LastOfKey(secs, r)
              && Key(BlockAt(secs, q)) == Key(BlockAt(secs, p)) && Key(BlockAt(secs, r)) == Key(BlockAt(secs, p))
      ensures q == r
    {
      LastOfKeyUnique(secs, q, r);
    }
  }

  /** Chunks accumulate across sections in document order: those of the
      next section are appended after those of the earlier ones. */
  lemma AccumulateSection(secs: seq<Section>, s: nat, key: string)
    requires s < |secs|
    ensures GroupChunks(Blocks(secs[..s + 1]), key)
         == GroupChunks(Blocks(secs[..s]), key) + GroupChunks(secs[s].codeBlocks, key)
  {
    BlocksStep(secs, s);
    GroupChunksAppend(Blocks(secs[..s]), secs[s].codeBlocks, key);
  }

  /** Without any explicit full code, validation reports nothing. */
  lemma NoExplicitNoEntryWarnings(simple: SimpleBlogEntry)
    requires forall s, b :: 0 <= s < |simple.sections| && 0 <= b < |BlocksOrEmpty(simple.sections[s].codeBlocks)|
               ==> !Truthy(BlocksOrEmpty(simple.sections[s].codeBlocks)[b].fullCode)
    ensures EntryWarnings(simple) == []
  {
    var bs := SimpleBlocks(simple.sections);
    NoSuppliedInSimpleBlocks(simple.sections);
    forall path ensures path !in ExplicitFullCode(bs) {
      ExplicitFullCodeSpec(bs, path);
    }
    assert ExplicitFullCode(bs) == map[];
    NoExplicitNoWarnings(Blocks(ParseSimpleEntry(simple).sections));
  }

  lemma {:induction false} NoSuppliedInSimpleBlocks(secs: seq<SimpleSection>)
    requires forall s, b :: 0 <= s < |secs| && 0 <= b < |BlocksOrEmpty(secs[s].codeBlocks)|
               ==> !Truthy(BlocksOrEmpty(secs[s].codeBlocks)[b].fullCode)
    ensures forall i :: 0 <= i < |SimpleBlocks(secs)| ==> !Truthy(SimpleBlocks(secs)[i].fullCode)
  {
    if secs != [] {
      var init := secs[..|secs| - 1];
      NoSuppliedInSimpleBlocks(init);
      var last := BlocksOrEmpty(secs[|secs| - 1].codeBlocks);
      forall i | 0 <= i < |SimpleBlocks(secs)|
        ensures !Truthy(SimpleBlocks(secs)[i].fullCode)
      {
        if i >= |SimpleBlocks(init)| {
          assert SimpleBlocks(secs)[i] == last[i - |SimpleBlocks(init)|];
        }
      }
    }
  }
}
