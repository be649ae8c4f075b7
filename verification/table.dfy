/**
 The analyzer's ad-hoc conversion of the model's Markdown answer into a header
 and rows of cells (resumep.py, lines 139-144). The whole answer is stripped
 and cut at newlines; the first line gives the header, the second line is
 skipped unread, every later line gives one row. A line becomes cells by
 `strip('|')`, `split('|')` and `strip()` on every piece. Nothing checks the
 delimiter row, honours an escaped pipe, or pads or cuts rows to the header's
 width.
 */
module MarkdownTable {
  import opened PyStr

  datatype Table = Table(header: seq<string>, rows: seq<seq<string>>)

  /** A cell as the splitter produces it: no pipe inside, no whitespace at
      either end. */
  ghost predicate CleanCell(cell: string) {
    '|' !in cell && Trimmed(cell, IsSpace)
  }

  ghost predicate CleanCells(cells: seq<string>) {
    forall i :: 0 <= i < |cells| ==> CleanCell(cells[i])
  }

  /** `generated_content.strip().split('\n')`. */
  function Lines(response: string): (lines: seq<string>)
    ensures |lines| >= 1
  {
    Split(Strip(response), '\n')
  }

  /** `line.strip('|').split('|')`: the untrimmed cells of one line. */
  function Pieces(line: string): (pieces: seq<string>)
  {
    Split(StripPipes(line), '|')
  }

  /** `[c.strip() for c in line.strip('|').split('|')]`. */
  function Cells(line: string): (cells: seq<string>)
  {
    StripEach(Pieces(line))
  }

  /** `[p.strip() for p in pieces]`. */
  function StripEach(pieces: seq<string>): (cells: seq<string>)
    ensures |cells| == |pieces|
    ensures forall i :: 0 <= i < |cells| ==> cells[i] == Strip(pieces[i])
  {
    if pieces == [] then [] else [Strip(pieces[0])] + StripEach(pieces[1..])
  }

  /** What the splitter promises about a response: the header comes from the
      first line, row `i` from line `i + 2`, and there is one row per line
      after the second. */
  ghost predicate ParsedFrom(t: Table, response: string) {
    var lines := Lines(response);
    && t.header == Cells(lines[0])
    && |t.rows| == (if |lines| < 2 then 0 else |lines| - 2)
    && forall i :: 0 <= i < |t.rows| ==> t.rows[i] == Cells(lines[i + 2])
  }

  /** Python `lines[2:]`, which is empty when there are fewer than three lines. */
  function DropTwo(lines: seq<string>): (rest: seq<string>)
    ensures |rest| == if |lines| < 2 then 0 else |lines| - 2
    ensures forall i :: 0 <= i < |rest| ==> rest[i] == lines[i + 2]
  {
    if |lines| < 2 then [] else lines[2..]
  }

  /** The row loop of resumep.py, lines 141-144: one row of cells per line,
      in order. */
  method ParseRows(rest: seq<string>) returns (data: seq<seq<string>>)
    ensures |data| == |rest|
    ensures forall i :: 0 <= i < |data| ==> data[i] == Cells(rest[i])
  {
    data := [];
    for k := 0 to |rest|
      invariant |data| == k
      invariant forall i :: 0 <= i < k ==> data[i] == Cells(rest[i])
    {
      data := data + [Cells(rest[k])];
    }
  }

  /** The splitter of resumep.py, lines 139-144. It indexes `lines[0]`
      without a guard, which is safe because `split` always yields at least
      one line: the splitter itself never fails. */
  method Parse(response: string) returns (t: Table)
    ensures ParsedFrom(t, response)
  {
    var lines := Lines(response);
    var header := Cells(lines[0]);
    var data := ParseRows(DropTwo(lines));
    t := Table(header, data);
  }

  /** Every cell of a line is free of pipes and of whitespace at either end. */
  lemma CellsClean(line: string)
    ensures CleanCells(Cells(line))
  {
    var pieces := Pieces(line);
    var cells := Cells(line);
    SplitPiecesNoSep(StripPipes(line), '|');
    forall i | 0 <= i < |cells| ensures CleanCell(cells[i]) {
      assert '|' !in pieces[i];
      assert cells[i] == Strip(pieces[i]);
      StripByInside(pieces[i], IsSpace);
    }
  }

  /** Every header cell and every data cell of a parsed table is free of
      pipes and of whitespace at either end. */
  lemma ParsedCellsClean(t: Table, response: string)
    requires ParsedFrom(t, response)
    ensures CleanCells(t.header)
    ensures forall i :: 0 <= i < |t.rows| ==> CleanCells(t.rows[i])
  {
    var lines := Lines(response);
    CellsClean(lines[0]);
    forall i | 0 <= i < |t.rows| ensures CleanCells(t.rows[i]) {
      CellsClean(lines[i + 2]);
    }
  }

  /** Only a pipe that is literally the first or last character of the line
      is an outer pipe: the number of cells is one more than the number of
      pipes left inside, and re-joining the untrimmed cells with `'|'` gives
      back the line without its outer pipes. */
  lemma CellCount(line: string)
    ensures |Cells(line)| == 1 + Count(StripPipes(line), '|')
    ensures Join("|", Pieces(line)) == StripPipes(line)
  {
    SplitCount(StripPipes(line), '|');
    JoinSplit(StripPipes(line), '|');
  }

  /** The cells of a line whose pipes have been stripped to `x + "|" + y`,
      where neither part holds a pipe. */
  lemma TwoCells(line: string, x: string, y: string)
    requires StripPipes(line) == x + "|" + y && '|' !in x && '|' !in y
    ensures Cells(line) == [Strip(x), Strip(y)]
  {
    assert Pieces(line) == [x, y] by {
      SplitAfterPiece(x, y, '|');
      SplitNoSep(y, '|');
    }
    StripEachPair(x, y);
  }

  lemma StripEachPair(x: string, y: string)
    ensures StripEach([x, y]) == [Strip(x), Strip(y)]
  {
    var c := StripEach([x, y]);
    assert |c| == 2 && c[0] == Strip(x) && c[1] == Strip(y);
  }

  /** Outer pipes are removed: `"|a|b|"` gives `["a", "b"]`, and so does any
      line of that shape. */
  lemma OuterPipesRemoved(x: string, y: string)
    requires x != "" && y != "" && '|' !in x && '|' !in y
    ensures Cells("|" + x + "|" + y + "|") == [Strip(x), Strip(y)]
  {
    var m := x + "|" + y;
    assert StripPipes("|" + x + "|" + y + "|") == m by {
      assert m[0] == x[0] && m[|m| - 1] == y[|y| - 1];
      assert x[0] in x && y[|y| - 1] in y;
      assert "|" + x + "|" + y + "|" == "|" + m + "|";
      StripByUnique("|", m, "|", IsPipe);
    }
    TwoCells("|" + x + "|" + y + "|", x, y);
  }

  /** A pipe is outer only when it is literally the first or last character:
      an indented row such as `"  | a |"` keeps a leading empty cell and gives
      `["", "a"]`. */
  lemma IndentedRowKeepsEmptyCell(w: string, x: string)
    requires w != "" && AllDropped(w, IsSpace) && x != "" && '|' !in x
    ensures Cells(w + "|" + x + "|") == ["", Strip(x)]
  {
    var m := w + "|" + x;
    assert '|' !in w by {
      forall k | 0 <= k < |w| ensures w[k] != '|' { assert IsSpace(w[k]); }
    }
    assert StripPipes(w + "|" + x + "|") == m by {
      assert m[0] == w[0] && m[|m| - 1] == x[|x| - 1];
      assert w[0] in w && x[|x| - 1] in x;
      assert w + "|" + x + "|" == [] + m + "|";
      StripByUnique([], m, "|", IsPipe);
    }
    TwoCells(w + "|" + x + "|", w, x);
    StripByAllDropped(w, IsSpace);
  }

  /** The second line is skipped unread: answers whose lines differ only
      there are split into the same table. */
  lemma SecondLineIgnored(t: Table, r1: string, r2: string)
    requires |Lines(r1)| == |Lines(r2)| && Lines(r1)[0] == Lines(r2)[0]
    requires forall i :: 2 <= i < |Lines(r1)| ==> Lines(r1)[i] == Lines(r2)[i]
    requires ParsedFrom(t, r1)
    ensures ParsedFrom(t, r2)
  {
  }

  /** A line of whitespace only, such as an empty interior line, gives the
      one-cell row `[""]`. */
  lemma BlankLineCells(line: string)
    requires AllDropped(line, IsSpace)
    ensures Cells(line) == [""]
  {
    assert Pieces(line) == [line] by {
      NoPipeLine(line);
      SplitNoSep(line, '|');
    }
    assert Strip(line) == "" by {
      StripByAllDropped(line, IsSpace);
    }
  }

  /** A line of whitespace only holds no pipe, so `strip('|')` keeps it. */
  lemma NoPipeLine(line: string)
    requires AllDropped(line, IsSpace)
    ensures '|' !in line && StripPipes(line) == line
  {
    forall k | 0 <= k < |line| ensures line[k] != '|' {
      assert IsSpace(line[k]);
    }
    assert Trimmed(line, IsPipe) by {
      if line != [] {
        assert IsSpace(line[0]) && IsSpace(line[|line| - 1]);
      }
    }
    assert [] + line + [] == line;
    StripByUnique([], line, [], IsPipe);
  }

  /** Blank lines (and any other whitespace) before or after the answer
      produce no rows: the lines are those of the answer alone. */
  lemma OuterWhitespaceIgnored(a: string, response: string, b: string)
    requires AllDropped(a, IsSpace) && AllDropped(b, IsSpace)
    ensures Lines(a + response + b) == Lines(response)
  {
    StripByWrapped(a, response, b, IsSpace);
  }

  /** `line` does not start with whitespace. */
  ghost predicate NoLeadingSpace(line: string) {
    line == [] || !IsSpace(line[0])
  }

  /** `line` does not end with whitespace. */
  ghost predicate NoTrailingSpace(line: string) {
    line == [] || !IsSpace(line[|line| - 1])
  }

  /** After the whole-answer strip, the first line does not start and the
      last line does not end with whitespace; with two or more lines the
      last one is never empty, so a trailing blank line never becomes a row. */
  lemma OuterLinesTrimmed(response: string)
    ensures NoLeadingSpace(Lines(response)[0])
    ensures NoTrailingSpace(Lines(response)[|Lines(response)| - 1])
    ensures |Lines(response)| >= 2 ==> Lines(response)[|Lines(response)| - 1] != []
  {
    var s := Strip(response);
    StripByInside(response, IsSpace);
    TrimmedTextLines(s);
    assert Lines(response) == Split(s, '\n');
  }

  lemma TrimmedTextLines(s: string)
    requires Trimmed(s, IsSpace)
    ensures NoLeadingSpace(Split(s, '\n')[0])
    ensures NoTrailingSpace(Split(s, '\n')[|Split(s, '\n')| - 1])
    ensures |Split(s, '\n')| >= 2 ==> Split(s, '\n')[|Split(s, '\n')| - 1] != []
  {
    var lines := Split(s, '\n');
    JoinSplit(s, '\n');
    if |lines| >= 2 {
      var p, q := JoinEnds("\n", lines);
      var first, last := lines[0], lines[|lines| - 1];
      assert first != [] ==> first[0] == s[0] by {
        assert s == first + ("\n" + q);
      }
      assert s[|s| - 1] == if last == [] then '\n' else last[|last| - 1] by {
        assert s == (p + "\n") + last;
      }
      assert IsSpace('\n');
    }
  }
}
