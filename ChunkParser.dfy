/** `parseCodeToChunks`: splits diff-marked text into lines, classifies each
    line by its first character and groups consecutive lines of one kind into
    maximal chunks. */
module ChunkParser {
  import opened Text
  import opened BlogTypes

  /** One input line after classification: its kind and its content. */
  datatype Line = Line(kind: ChunkType, text: string)

  predicate IsMarker(c: char) {
    c == '+' || c == '-' || c == ' '
  }

  /** Classification of one line: `+` is added, `-` removed, a space context,
      each with the marker stripped; any other line, the empty one included,
      is context and kept whole. */
  function Classify(line: string): (l: Line)
    ensures l.kind != Meta
    ensures l.kind == Added <==> line != [] && line[0] == '+'
    ensures l.kind == Removed <==> line != [] && line[0] == '-'
    ensures line != [] && IsMarker(line[0]) ==> line == [line[0]] + l.text
    ensures !(line != [] && IsMarker(line[0])) ==> l.text == line
  {
    if line != [] && line[0] == '+' then Line(Added, line[1..])
    else if line != [] && line[0] == '-' then Line(Removed, line[1..])
    else if line != [] && line[0] == ' ' then Line(Context, line[1..])
    else Line(Context, line)
  }

  /** The authoring form of a classified line: its marker, then its content. */
  function Render(l: Line): string
    requires l.kind != Meta
  {
    match l.kind
    case Added => "+" + l.text
    case Removed => "-" + l.text
    case Context => " " + l.text
  }

  /** Classification undoes rendering. */
  lemma ClassifyRender(l: Line)
    requires l.kind != Meta
    ensures Classify(Render(l)) == l
  {
    assert Render(l)[1..] == l.text;
  }

  /** Rendering a classified line restores it, except that a context line
      written without a marker comes back with the space marker. */
  lemma RenderClassify(line: string)
    ensures Render(Classify(line)) == (if line != [] && IsMarker(line[0]) then line else " " + line)
  {
  }

  function Classified(lines: seq<string>): (ls: seq<Line>)
    ensures |ls| == |lines|
    ensures forall i :: 0 <= i < |lines| ==> ls[i] == Classify(lines[i])
  {
    seq(|lines|, i requires 0 <= i < |lines| => Classify(lines[i]))
  }

  /** Every chunk holds at least one line and adjacent chunks differ in kind. */
  predicate WellFormed(cs: seq<Chunk>) {
    && (forall i :: 0 <= i < |cs| ==> cs[i].lines != [])
    && (forall i :: 0 < i < |cs| ==> cs[i - 1].kind != cs[i].kind)
  }

  predicate NoMeta(cs: seq<Chunk>) {
    forall i :: 0 <= i < |cs| ==> cs[i].kind != Meta
  }

  /** The lines of a chunk, each tagged with the chunk's kind. */
  function Tag(c: Chunk): (ls: seq<Line>)
    ensures |ls| == |c.lines|
  {
    seq(|c.lines|, j requires 0 <= j < |c.lines| => Line(c.kind, c.lines[j]))
  }

  /** The classified lines a chunk sequence stands for, in order. */
  function Expand(cs: seq<Chunk>): seq<Line> {
    if cs == [] then [] else Expand(cs[..|cs| - 1]) + Tag(cs[|cs| - 1])
  }

  /** Adds one classified line at the end: it joins the last chunk when the
      kinds agree and opens a new chunk otherwise. */
  function Push(cs: seq<Chunk>, l: Line): seq<Chunk> {
    if cs != [] && cs[|cs| - 1].kind == l.kind
    then cs[..|cs| - 1] + [Chunk(l.kind, cs[|cs| - 1].lines + [l.text])]
    else cs + [Chunk(l.kind, [l.text])]
  }

  /** Groups classified lines into maximal runs; the result is well formed
      and has no more chunks than there are lines. */
  function Group(ls: seq<Line>): (cs: seq<Chunk>)
    ensures WellFormed(cs)
    ensures |cs| <= |ls|
    ensures ls != [] ==> cs != [] && cs[|cs| - 1].kind == ls[|ls| - 1].kind
  {
    if ls == [] then []
    else Push(Group(ls[..|ls| - 1]), ls[|ls| - 1])
  }

  /** The specification of `parseCodeToChunks`. */
  function ParseChunks(code: string): seq<Chunk> {
    Group(Classified(Split(code)))
  }

  lemma {:induction false} ExpandAppend(a: seq<Chunk>, b: seq<Chunk>)
    ensures Expand(a + b) == Expand(a) + Expand(b)
    decreases |b|
  {
    if b == [] {
      assert a + b == a;
    } else {
      ExpandAppend(a, b[..|b| - 1]);
      assert (a + b)[..|a + b| - 1] == a + b[..|b| - 1];
    }
  }

  lemma ExpandSingle(c: Chunk)
    ensures Expand([c]) == Tag(c)
  {
    assert [c][..0] == [];
  }

  /** Pushing a line extends the expansion by exactly that line. */
  lemma ExpandPush(cs: seq<Chunk>, l: Line)
    ensures Expand(Push(cs, l)) == Expand(cs) + [l]
  {
    var n := |cs|;
    if cs != [] && cs[n - 1].kind == l.kind {
      var last := cs[n - 1];
      ExpandAppend(cs[..n - 1], [Chunk(l.kind, last.lines + [l.text])]);
      ExpandAppend(cs[..n - 1], [last]);
      ExpandSingle(Chunk(l.kind, last.lines + [l.text]));
      ExpandSingle(last);
      assert cs[..n - 1] + [last] == cs;
      assert Tag(Chunk(l.kind, last.lines + [l.text])) == Tag(last) + [l];
    } else {
      ExpandAppend(cs, [Chunk(l.kind, [l.text])]);
      ExpandSingle(Chunk(l.kind, [l.text]));
    }
  }

  /** Grouping is lossless and order-preserving: expanding the chunks gives
      back exactly the classified lines. */
  lemma {:induction false} ExpandGroup(ls: seq<Line>)
    ensures Expand(Group(ls)) == ls
  {
    if ls != [] {
      var init, l := ls[..|ls| - 1], ls[|ls| - 1];
      var g := Group(init);
      assert Group(ls) == Push(g, l);
      ExpandGroup(init);
      ExpandPush(g, l);
      assert init + [l] == ls;
    }
  }

  /** The chunk sequence with its very last line taken off. */
  function DropLastLine(cs: seq<Chunk>): seq<Chunk>
    requires cs != []
  {
    var last := cs[|cs| - 1];
    if |last.lines| <= 1 then cs[..|cs| - 1]
    else cs[..|cs| - 1] + [Chunk(last.kind, last.lines[..|last.lines| - 1])]
  }

  function LastLine(cs: seq<Chunk>): Line
    requires cs != [] && cs[|cs| - 1].lines != []
  {
    var last := cs[|cs| - 1];
    Line(last.kind, last.lines[|last.lines| - 1])
  }

  lemma DropLastLineWellFormed(cs: seq<Chunk>)
    requires cs != [] && WellFormed(cs)
    ensures WellFormed(DropLastLine(cs))
  {
    var d := DropLastLine(cs);
    forall i | 0 < i < |d| ensures d[i - 1].kind != d[i].kind {
      assert d[i - 1].kind == cs[i - 1].kind && d[i].kind == cs[i].kind;
    }
  }

  /** Taking the last line off and pushing it back is the identity. */
  lemma PushDropLastLine(cs: seq<Chunk>)
    requires cs != [] && WellFormed(cs)
    ensures Push(DropLastLine(cs), LastLine(cs)) == cs
  {
    var n := |cs|;
    var last := cs[n - 1];
    var m := |last.lines|;
    assert last.lines[..m - 1] + [last.lines[m - 1]] == last.lines;
    if m == 1 {
      assert n > 1 ==> cs[n - 2].kind != last.kind;
      assert cs[..n - 1] + [last] == cs;
    } else {
      var d := DropLastLine(cs);
      assert d[..n - 1] == cs[..n - 1];
      assert cs[..n - 1] + [last] == cs;
    }
  }

  lemma ExpandDropLastLine(cs: seq<Chunk>)
    requires cs != [] && WellFormed(cs)
    ensures Expand(cs) == Expand(DropLastLine(cs)) + [LastLine(cs)]
  {
    PushDropLastLine(cs);
    ExpandPush(DropLastLine(cs), LastLine(cs));
  }

  /** Grouping is the only well-formed chunking of a line sequence: any
      well-formed chunk sequence that expands to `ls` is `Group(ls)`. */
  lemma {:induction false} GroupUnique(cs: seq<Chunk>, ls: seq<Line>)
    requires WellFormed(cs) && Expand(cs) == ls
    ensures cs == Group(ls)
    decreases |ls|
  {
    if cs == [] {
      assert ls == [];
    } else {
      var d := DropLastLine(cs);
      ExpandDropLastLine(cs);
      DropLastLineWellFormed(cs);
      assert ls[..|ls| - 1] == Expand(d);
      GroupUnique(d, ls[..|ls| - 1]);
      PushDropLastLine(cs);
    }
  }

  /** Grouping lines that are never `Meta` yields no `Meta` chunk. */
  lemma {:induction false} GroupNoMeta(ls: seq<Line>)
    requires forall i :: 0 <= i < |ls| ==> ls[i].kind != Meta
    ensures NoMeta(Group(ls))
  {
    if ls != [] {
      GroupNoMeta(ls[..|ls| - 1]);
    }
  }

  /** The parse of any text is well formed, covers every `\n`-separated
      line in order with its marker stripped, and has at most one chunk per
      line. */
  lemma ParseChunksSpec(code: string)
    ensures WellFormed(ParseChunks(code)) && NoMeta(ParseChunks(code))
    ensures Expand(ParseChunks(code)) == Classified(Split(code))
    ensures 1 <= |ParseChunks(code)| <= |Split(code)|
  {
    ExpandGroup(Classified(Split(code)));
    GroupNoMeta(Classified(Split(code)));
  }

  /** An empty text is one empty context line, so it parses to one context
      chunk holding the empty string rather than to no chunks. */
  lemma ParseEmpty()
    ensures ParseChunks("") == [Chunk(Context, [""])]
  {
    assert Split("") == [""];
    assert Classified([""]) == [Line(Context, "")];
    assert [Line(Context, "")][..0] == [];
  }

  lemma GroupStep(ls: seq<Line>, i: nat)
    requires i < |ls|
    ensures Group(ls[..i + 1]) == Push(Group(ls[..i]), ls[i])
  {
    assert ls[..i + 1][..i] == ls[..i];
  }

  lemma PushOnto(cs: seq<Chunk>, kind: ChunkType, lines: seq<string>, l: Line)
    ensures Push(cs + [Chunk(kind, lines)], l)
         == if kind == l.kind then cs + [Chunk(kind, lines + [l.text])]
            else cs + [Chunk(kind, lines), Chunk(l.kind, [l.text])]
  {
    assert (cs + [Chunk(kind, lines)])[..|cs|] == cs;
  }

  /** The loop of `parseCodeToChunks`: a current kind and a buffer of lines,
      flushed into `chunks` whenever the kind changes and once at the end. */
  method ParseCodeToChunks(code: string) returns (chunks: seq<Chunk>)
    ensures chunks == ParseChunks(code)
  {
    var lines := Split(code);
    ghost var ls := Classified(lines);
    chunks := [];
    var currentType: Option<ChunkType> := None;
    var currentLines: seq<string> := [];
    for i := 0 to |lines|
      invariant i == 0 ==> chunks == [] && currentType == None && currentLines == []
      invariant i > 0 ==> currentType.Some? && currentLines != []
      invariant i > 0 ==> chunks + [Chunk(currentType.value, currentLines)] == Group(ls[..i])
    {
      var line := lines[i];
      var kind: ChunkType;
      var content: string;
      if line != [] && line[0] == '+' {
        kind, content := Added, line[1..];
      } else if line != [] && line[0] == '-' {
        kind, content := Removed, line[1..];
      } else if line != [] && line[0] == ' ' {
        kind, content := Context, line[1..];
      } else {
        kind, content := Context, line;
      }
      assert Line(kind, content) == ls[i];
      GroupStep(ls, i);
      ghost var expected := Group(ls[..i + 1]);
      if i == 0 {
        assert ls[..0] == [];
        assert expected == [Chunk(kind, [content])];
      } else {
        PushOnto(chunks, currentType.value, currentLines, ls[i]);
      }
      if currentType != Some(kind) {
        if |currentLines| > 0 && currentType.Some? {
          chunks := chunks + [Chunk(currentType.value, currentLines)];
          currentLines := [];
        }
        currentType := Some(kind);
        currentLines := currentLines + [content];
        assert currentLines == [content];
        assert chunks + [Chunk(currentType.value, currentLines)] == expected;
      } else {
        currentLines := currentLines + [content];
      }
    }
    if |currentLines| > 0 && currentType.Some? {
      chunks := chunks + [Chunk(currentType.value, currentLines)];
      currentLines := [];
    }
    assert ls[..|lines|] == ls;
  }
}
