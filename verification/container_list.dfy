/** The parser the background worker applies to the text printed by
    `distrobox-list --no-color`: one header line, then one line per container
    whose columns are separated by " | ". */
module ContainerList {
  import opened PyStrings

  const LineBreak: String := "\n"
  const ColumnSeparator: String := " | "

  /** The lines of the listing, as `output.split("\n")` produces them. */
  function Lines(output: String): (lines: seq<String>)
    ensures |lines| == Count(output, LineBreak) + 1
    ensures Join(lines, LineBreak) == output
  {
    SplitCount(output, LineBreak);
    SplitJoin(output, LineBreak);
    Split(output, LineBreak)
  }

  /** Strip every piece of a split line, keeping their order. */
  function StripAll(pieces: seq<String>): (cells: seq<String>)
    ensures |cells| == |pieces|
    ensures forall j :: 0 <= j < |pieces| ==> cells[j] == Strip(pieces[j])
    ensures forall j :: 0 <= j < |cells| ==> Trimmed(cells[j]) && |cells[j]| <= |pieces[j]|
  {
    seq(|pieces|, j requires 0 <= j < |pieces| => Strip(pieces[j]))
  }

  /** One table row: the line split on " | ", each piece stripped. A row has
      one cell more than the line has separators, and no cell has whitespace
      at either end. */
  function Row(line: String): (cells: seq<String>)
    ensures |cells| == Count(line, ColumnSeparator) + 1
    ensures forall j :: 0 <= j < |cells| ==> Trimmed(cells[j])
  {
    SplitCount(line, ColumnSeparator);
    StripAll(Split(line, ColumnSeparator))
  }

  /** The cells of a row are, in order, the stripped pieces of the line's
      leftmost decomposition around " | ": the pieces rejoined give the line
      back and none of them contains the separator. */
  lemma RowOfLine(line: String)
    ensures var pieces := Split(line, ColumnSeparator);
            && LeftmostDecomposition(pieces, ColumnSeparator, line)
            && (forall p :: p in pieces ==> !Contains(p, ColumnSeparator))
            && |Row(line)| == |pieces|
            && (forall j :: 0 <= j < |pieces| ==> Row(line)[j] == Strip(pieces[j]))
  {
    SplitIsLeftmost(line, ColumnSeparator);
    SplitPiecesFree(line, ColumnSeparator);
  }

  /** The parser: drop the header line and turn every later line, in order,
      into a row. */
  method ParseOutput(output: String) returns (data: seq<seq<String>>)
    ensures |data| == |Lines(output)| - 1
    ensures |data| == Count(output, LineBreak)
    ensures |data| == 0 <==> !Contains(output, LineBreak)
    ensures forall i :: 0 <= i < |data| ==> data[i] == Row(Lines(output)[i + 1])
    ensures forall i :: 0 <= i < |data| ==> |data[i]| >= 1
    ensures forall i, j :: 0 <= i < |data| && 0 <= j < |data[i]| ==> Trimmed(data[i][j])
  {
    var lines := Lines(output);
    data := [];
    var n := 1;
    while n < |lines|
      invariant 1 <= n <= |lines|
      invariant |data| == n - 1
      invariant forall i :: 0 <= i < |data| ==> data[i] == Row(lines[i + 1])
    {
      data := data + [Row(lines[n])];
      n := n + 1;
    }
    CountZeroIff(output, LineBreak);
  }
}
