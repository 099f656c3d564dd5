/** The `code` template helper: drops a blank first and a blank last line,
    then removes the common leading whitespace of the non-blank lines and
    turns blank lines into empty ones. The template's interpolation is
    modelled as the already combined string. */
module Dedent {
  import opened Text
  import opened BlogTypes

  /** `lines.shift()` when the first line is blank, then `lines.pop()` when
      the (remaining) last line is blank. The result is a contiguous run of
      the lines: it starts after the first line exactly when that line is
      blank, and it leaves out the last line exactly when that line is blank
      and was not already dropped as the first. */
  function DropBlankEnds(lines: seq<string>): (r: seq<string>)
    ensures var a := if lines != [] && IsBlank(lines[0]) then 1 else 0;
            && a + |r| <= |lines|
            && r == lines[a..a + |r|]
            && (a + |r| < |lines| ==> a + |r| == |lines| - 1 && IsBlank(lines[|lines| - 1]))
            && (a < |lines| && IsBlank(lines[|lines| - 1]) ==> a + |r| == |lines| - 1)
  {
    var rest := if lines != [] && IsBlank(lines[0]) then lines[1..] else lines;
    if rest != [] && IsBlank(rest[|rest| - 1]) then rest[..|rest| - 1] else rest
  }

  function Min(a: nat, b: nat): nat {
    if a <= b then a else b
  }

  /** The smallest indentation of the non-blank lines; `None` stands for the
      `Infinity` the fold starts from when every line is blank. */
  function MinIndent(lines: seq<string>): Option<nat> {
    if lines == [] then None
    else
      var m := MinIndent(lines[..|lines| - 1]);
      var line := lines[|lines| - 1];
      if IsBlank(line) then m
      else match m
        case None => Some(Indent(line))
        case Some(k) => Some(Min(k, Indent(line)))
  }

  /** `MinIndent` is a lower bound on the indentation of every non-blank
      line and is attained by one of them; it is `None` exactly when every
      line is blank. */
  lemma {:induction false} MinIndentSpec(lines: seq<string>)
    ensures MinIndent(lines).None? <==> forall i :: 0 <= i < |lines| ==> IsBlank(lines[i])
    ensures MinIndent(lines).Some? ==>
              && (forall i :: 0 <= i < |lines| && !IsBlank(lines[i]) ==> MinIndent(lines).value <= Indent(lines[i]))
              && (exists i :: 0 <= i < |lines| && !IsBlank(lines[i]) && Indent(lines[i]) == MinIndent(lines).value)
  {
    if lines != [] {
      var init := lines[..|lines| - 1];
      MinIndentSpec(init);
      forall i | 0 <= i < |init|
        ensures init[i] == lines[i]
      {
      }
      if MinIndent(init).Some? {
        var j :| 0 <= j < |init| && !IsBlank(init[j]) && Indent(init[j]) == MinIndent(init).value;
        assert lines[j] == init[j];
      }
    }
  }

  lemma MinIndentStep(lines: seq<string>, i: nat)
    requires i < |lines|
    ensures MinIndent(lines[..i + 1])
         == if IsBlank(lines[i]) then MinIndent(lines[..i])
            else match MinIndent(lines[..i])
              case None => Some(Indent(lines[i]))
              case Some(k) => Some(Min(k, Indent(lines[i])))
  {
    assert lines[..i + 1][..i] == lines[..i];
  }

  /** `line.slice(k)` in JavaScript: the empty string once `k` passes the end. */
  function Slice(line: string, k: nat): string {
    if k <= |line| then line[k..] else ""
  }

  /** The `dedented` lines. */
  function Dedented(lines: seq<string>): seq<string> {
    var m := match MinIndent(lines) case None => 0 case Some(k) => k;
    seq(|lines|, i requires 0 <= i < |lines| => if IsBlank(lines[i]) then "" else Slice(lines[i], m))
  }

  /** The string `code` returns for a combined template string. */
  function DedentText(template: string): string {
    Join(Dedented(DropBlankEnds(Split(template))))
  }

  /** Dedenting removes from every line only leading whitespace, the same
      amount from every non-blank line, turns every blank line into the empty
      string, keeps what `trim()` sees, and leaves at least one non-blank
      line starting at column 0 when there is one. */
  lemma DedentedSpec(lines: seq<string>)
    ensures |Dedented(lines)| == |lines|
    ensures forall i :: 0 <= i < |lines| ==>
              && |Dedented(lines)[i]| <= |lines[i]|
              && lines[i] == lines[i][..|lines[i]| - |Dedented(lines)[i]|] + Dedented(lines)[i]
              && AllWhitespace(lines[i][..|lines[i]| - |Dedented(lines)[i]|])
              && Trim(Dedented(lines)[i]) == Trim(lines[i])
    ensures forall i :: 0 <= i < |lines| && IsBlank(lines[i]) ==> Dedented(lines)[i] == ""
    ensures forall i, j :: 0 <= i < |lines| && 0 <= j < |lines| && !IsBlank(lines[i]) && !IsBlank(lines[j]) ==>
              |lines[i]| - |Dedented(lines)[i]| == |lines[j]| - |Dedented(lines)[j]|
    ensures (exists i :: 0 <= i < |lines| && !IsBlank(lines[i])) ==>
              exists i :: 0 <= i < |lines| && Dedented(lines)[i] != "" && !IsWhitespace(Dedented(lines)[i][0])
  {
    MinIndentSpec(lines);
    var d := Dedented(lines);
    var m := match MinIndent(lines) case None => 0 case Some(k) => k;
    forall i | 0 <= i < |lines|
      ensures && |d[i]| <= |lines[i]|
              && lines[i] == lines[i][..|lines[i]| - |d[i]|] + d[i]
              && AllWhitespace(lines[i][..|lines[i]| - |d[i]|])
              && Trim(d[i]) == Trim(lines[i])
              && (!IsBlank(lines[i]) ==> |lines[i]| - |d[i]| == m)
    {
      DedentLine(lines[i], m);
    }
    if exists i :: 0 <= i < |lines| && !IsBlank(lines[i]) {
      var j :| 0 <= j < |lines| && !IsBlank(lines[j]) && Indent(lines[j]) == m;
      DedentAtColumnZero(lines[j]);
    }
  }

  /** One line dedented by at most its own indentation. */
  lemma DedentLine(line: string, m: nat)
    requires IsBlank(line) || m <= Indent(line)
    ensures var d := if IsBlank(line) then "" else Slice(line, m);
            && |d| <= |line|
            && line == line[..|line| - |d|] + d
            && AllWhitespace(line[..|line| - |d|])
            && Trim(d) == Trim(line)
            && (!IsBlank(line) ==> |line| - |d| == m)
  {
    if IsBlank(line) {
      TrimSpec(line);
      assert line[..|line|] == line;
      assert Trim("") == "";
    } else {
      TrimStartDropIndent(line, m);
      assert line[..m] == line[..Indent(line)][..m];
    }
  }

  /** A non-blank line dedented by exactly its indentation starts with a
      non-whitespace character. */
  lemma DedentAtColumnZero(line: string)
    requires !IsBlank(line)
    ensures Slice(line, Indent(line)) != "" && !IsWhitespace(Slice(line, Indent(line))[0])
  {
    TrimSpec(line);
    assert Indent(line) < |line|;
  }

  /** `code`: combine, split, drop the blank ends, fold the minimum
      indentation and dedent. */
  method Code(template: string) returns (r: string)
    ensures r == DedentText(template)
  {
    var lines := Split(template);
    if IsBlank(lines[0]) {
      lines := lines[1..];
    }
    if |lines| > 0 && IsBlank(lines[|lines| - 1]) {
      lines := lines[..|lines| - 1];
    }
    assert lines == DropBlankEnds(Split(template));

    var minIndent: Option<nat> := None;
    for i := 0 to |lines|
      invariant minIndent == MinIndent(lines[..i])
    {
      MinIndentStep(lines, i);
      var line := lines[i];
      if IsBlank(line) {
        continue;
      }
      var leadingWhitespace := Indent(line);
      minIndent := match minIndent
        case None => Some(leadingWhitespace)
        case Some(k) => Some(Min(k, leadingWhitespace));
    }
    assert lines[..|lines|] == lines;
    var shift := match minIndent case None => 0 case Some(k) => k;

    var dedented := seq(|lines|, i requires 0 <= i < |lines| => if IsBlank(lines[i]) then "" else Slice(lines[i], shift));
    r := Join(dedented);
  }
}
