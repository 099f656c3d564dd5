/** Worked examples: a three-line diff, its final content, the validation
    of that block against an authoritative text, and a dedented template. */
module Scenarios {
  import opened Text
  import opened BlogTypes
  import opened ChunkParser
  import opened Reconstruction
  import opened Validation
  import opened Dedent

  const DiffLines: seq<string> := ["+int x = 1;", " int y = 2;", "-int z = 3;"]

  const DiffChunks: seq<Chunk> :=
    [Chunk(Added, ["int x = 1;"]), Chunk(Context, ["int y = 2;"]), Chunk(Removed, ["int z = 3;"])]

  lemma SplitDiff()
    ensures Split("+int x = 1;\n int y = 2;\n-int z = 3;") == DiffLines
  {
    assert Join(DiffLines) == "+int x = 1;\n int y = 2;\n-int z = 3;";
    SplitJoin(DiffLines);
  }

  const DiffClassified: seq<Line> :=
    [Line(Added, "int x = 1;"), Line(Context, "int y = 2;"), Line(Removed, "int z = 3;")]

  lemma ClassifyDiff()
    ensures Classified(DiffLines) == DiffClassified
  {
  }

  lemma GroupDiff()
    ensures Group(DiffClassified) == DiffChunks
  {
    var ls := DiffClassified;
    GroupStep(ls, 0);
    GroupStep(ls, 1);
    GroupStep(ls, 2);
    assert ls[..0] == [] && ls[..3] == ls;
    assert Group(ls[..1]) == [Chunk(Added, ["int x = 1;"])];
    PushOnto([], Added, ["int x = 1;"], ls[1]);
    assert Group(ls[..2]) == DiffChunks[..2];
    PushOnto(DiffChunks[..1], Context, ["int y = 2;"], ls[2]);
  }

  /** One marker per line gives one chunk per line, each with its marker
      stripped. */
  lemma ParseDiff()
    ensures ParseChunks("+int x = 1;\n int y = 2;\n-int z = 3;") == DiffChunks
  {
    SplitDiff();
    ClassifyDiff();
    GroupDiff();
  }

  lemma FinalLinesDiff()
    ensures FinalLines(DiffChunks) == ["int x = 1;", "int y = 2;"]
  {
    assert DiffChunks[..2][..1] == DiffChunks[..1] && DiffChunks[..1][..0] == [];
    assert FinalLines(DiffChunks[..1]) == ["int x = 1;"];
    assert FinalLines(DiffChunks[..2]) == ["int x = 1;", "int y = 2;"];
    assert DiffChunks[..3] == DiffChunks;
  }

  /** The final content leaves out the removed line. */
  lemma FullCodeDiff()
    ensures FullCode(DiffChunks) == "int x = 1;\nint y = 2;"
  {
    FinalLinesDiff();
    assert ["int x = 1;", "int y = 2;"][1..] == ["int y = 2;"];
  }

  /** Empty input: one context chunk holding one empty line, and an empty
      final content. */
  lemma ParseEmptyText()
    ensures ParseChunks("") == [Chunk(Context, [""])]
    ensures FullCode(ParseChunks("")) == ""
  {
    ParseEmpty();
    assert [Chunk(Context, [""])][..0] == [];
  }

  const DiffBlock := CodeBlock("b", "cpp", Some("main.cpp"), None, DiffChunks, None)

  /** The warnings for the diff's chunks, given the authoritative lines. */
  lemma ChunkWarningsDiff(fullLines: seq<string>)
    ensures ChunkWarnings("main.cpp", fullLines, DiffChunks)
         == LineWarnings("main.cpp", fullLines, Context, ["int y = 2;"])
          + LineWarnings("main.cpp", fullLines, Removed, ["int z = 3;"])
  {
    assert DiffChunks[..2][..1] == DiffChunks[..1] && DiffChunks[..1][..0] == [] && DiffChunks[..3] == DiffChunks;
    assert ChunkWarnings("main.cpp", fullLines, DiffChunks[..1]) == [] + [];
    assert ChunkWarnings("main.cpp", fullLines, DiffChunks[..2])
        == [] + LineWarnings("main.cpp", fullLines, Context, ["int y = 2;"]);
  }

  lemma OneLineWarnings(fullLines: seq<string>, kind: ChunkType, line: string)
    ensures LineWarnings("main.cpp", fullLines, kind, [line])
         == if Mismatched(fullLines, line) then [Warning("main.cpp", kind, line)] else []
  {
    assert [line][..0] == [];
  }

  lemma PresentLineFacts()
    ensures !Mismatched(["int y = 2;", "int z = 3;"], "int y = 2;")
    ensures !Mismatched(["int y = 2;", "int z = 3;"], "int z = 3;")
  {
    TrimUnchanged("int y = 2;");
    TrimUnchanged("int z = 3;");
    assert ["int y = 2;", "int z = 3;"][1] == "int z = 3;";
  }

  /** Validation against a text holding both checked lines reports nothing. */
  lemma ValidateDiffPresent()
    ensures BlockWarnings(DiffBlock, map["main.cpp" := "int y = 2;\nint z = 3;"]) == []
  {
    var both := ["int y = 2;", "int z = 3;"];
    assert Join(both) == "int y = 2;\nint z = 3;";
    SplitJoin(both);
    PresentLineFacts();
    ChunkWarningsDiff(both);
    OneLineWarnings(both, Context, "int y = 2;");
    OneLineWarnings(both, Removed, "int z = 3;");
  }

  lemma MissingLineFacts()
    ensures !Mismatched(["int y = 2;"], "int y = 2;")
    ensures Mismatched(["int y = 2;"], "int z = 3;")
  {
    TrimUnchanged("int y = 2;");
    TrimUnchanged("int z = 3;");
  }

  /** Against a text missing the removed line, exactly that line is reported. */
  lemma ValidateDiffMissing()
    ensures BlockWarnings(DiffBlock, map["main.cpp" := "int y = 2;"]) == [Warning("main.cpp", Removed, "int z = 3;")]
  {
    var one := ["int y = 2;"];
    SplitNoSeparator("int y = 2;");
    MissingLineFacts();
    ChunkWarningsDiff(one);
    OneLineWarnings(one, Context, "int y = 2;");
    OneLineWarnings(one, Removed, "int z = 3;");
  }

  const TemplateLines: seq<string> := ["", "    +a", "     b", "  "]
  const Kept: seq<string> := ["    +a", "     b"]

  lemma SplitTemplate()
    ensures Split("\n    +a\n     b\n  ") == TemplateLines
  {
    assert Join(TemplateLines) == "\n    +a\n     b\n  ";
    SplitJoin(TemplateLines);
  }

  lemma TemplateBlanks()
    ensures IsBlank("") && IsBlank("  ") && !IsBlank("    +a") && !IsBlank("     b")
  {
    TrimSpec("");
    TrimSpec("  ");
    assert AllWhitespace("  ");
    TrimSpec("    +a");
    TrimSpec("     b");
    assert !IsWhitespace("    +a"[4]) && !IsWhitespace("     b"[5]);
  }

  lemma DropTemplateEnds()
    ensures DropBlankEnds(TemplateLines) == Kept
  {
    TemplateBlanks();
  }

  lemma MinIndentKept()
    ensures MinIndent(Kept) == Some(4)
  {
    TemplateBlanks();
    assert Indent("    +a") == 4 by {
      assert AllWhitespace("    +a"[..4]) && !IsWhitespace("    +a"[4]);
    }
    assert Indent("     b") == 5;
    assert Kept[..1][..0] == [] && Kept[..2] == Kept && Kept[..2][..1] == Kept[..1];
  }

  lemma DedentedKept()
    ensures Dedented(Kept) == ["+a", " b"]
  {
    TemplateBlanks();
    MinIndentKept();
  }

  lemma JoinDedented()
    ensures Join(["+a", " b"]) == "+a\n b"
  {
    assert ["+a", " b"][1..] == [" b"];
  }

  /** A template with a blank first line, a common indentation of four and
      a blank last line. */
  lemma DedentTemplate()
    ensures DedentText("\n    +a\n     b\n  ") == "+a\n b"
  {
    SplitTemplate();
    DropTemplateEnds();
    DedentedKept();
    assert Dedented(DropBlankEnds(Split("\n    +a\n     b\n  "))) == ["+a", " b"];
    JoinDedented();
  }
}
