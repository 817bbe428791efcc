/** The CSV row filter and node builder of `read_csv` (src/main.cpp:73-108). */
module NodeParser {
  import opened Values

  /** A field of a tab-separated row, as text. */
  type Field = string

  /** One row of the CSV file: its fields in order. */
  type Row = seq<Field>

  /** The float parser applied to a field (`QString::toFloat`): the parsed
      value, or None when the field is not a number. */
  type Parser = Field -> Option<Float32>

  /** A control point of the equalizer curve: frequency (Hz) and gain (dB). */
  datatype EqNode = EqNode(freq: Float32, gain: Float32)

  /** The value-initialised node that `std::vector<EqNode>(n)` holds n of. */
  const DefaultNode := EqNode(0, 0)

  /** Why no node list was produced. */
  datatype CsvError =
    | NoRows       // at most one row (line 73-77)
    | NoValidData  // the node list is empty (line 104-108)

  /** The node a row contributes: a row with fewer than two fields, or whose
      first or second field does not parse, contributes nothing. */
  function RowNode(row: Row, parse: Parser): (r: Option<EqNode>)
    ensures r.Some? <==> |row| >= 2 && parse(row[0]).Some? && parse(row[1]).Some?
    ensures r.Some? ==> r.value.freq == parse(row[0]).value && r.value.gain == parse(row[1]).value
  {
    if |row| < 2 then None
    else
      match (parse(row[0]), parse(row[1]))
      case (Some(freq), Some(gain)) => Some(EqNode(freq, gain))
      case _ => None
  }

  /** The nodes of the rows that contribute one, in row order. */
  function ValidNodes(rows: seq<Row>, parse: Parser): (r: seq<EqNode>)
    ensures |r| <= |rows|
  {
    if rows == [] then []
    else
      var init := ValidNodes(rows[..|rows| - 1], parse);
      match RowNode(rows[|rows| - 1], parse)
      case Some(node) => init + [node]
      case None => init
  }

  /** The indices of the rows that contribute a node, in increasing order. */
  function ValidIndices(rows: seq<Row>, parse: Parser): (r: seq<nat>)
    ensures forall k :: 0 <= k < |r| ==> r[k] < |rows|
  {
    if rows == [] then []
    else
      var init := ValidIndices(rows[..|rows| - 1], parse);
      if RowNode(rows[|rows| - 1], parse).Some? then init + [|rows| - 1] else init
  }

  /** The k-th valid node is the node of the k-th contributing row; the
      contributing rows are listed in increasing order, and a row is listed
      exactly when it has two parsable leading fields. */
  lemma {:induction false} ValidNodesByIndex(rows: seq<Row>, parse: Parser)
    ensures var idx, nodes := ValidIndices(rows, parse), ValidNodes(rows, parse);
      && |idx| == |nodes|
      && (forall k :: 0 <= k < |idx| ==> RowNode(rows[idx[k]], parse) == Some(nodes[k]))
      && (forall k, l :: 0 <= k < l < |idx| ==> idx[k] < idx[l])
      && (forall i :: 0 <= i < |rows| ==> (RowNode(rows[i], parse).Some? <==> i in idx))
  {
    if rows != [] {
      var last := |rows| - 1;
      var front := rows[..last];
      ValidNodesByIndex(front, parse);
      var idx0, nodes0 := ValidIndices(front, parse), ValidNodes(front, parse);
      var idx, nodes := ValidIndices(rows, parse), ValidNodes(rows, parse);
      assert forall i :: 0 <= i < |front| ==> rows[i] == front[i];
      if RowNode(rows[last], parse).Some? {
        assert idx == idx0 + [last] && nodes == nodes0 + [RowNode(rows[last], parse).value];
      } else {
        assert idx == idx0 && nodes == nodes0;
      }
    }
  }

  /** When every row is well formed, every row contributes its node, in order. */
  lemma {:induction false} ValidNodesAllValid(rows: seq<Row>, parse: Parser)
    requires forall i :: 0 <= i < |rows| ==> RowNode(rows[i], parse).Some?
    ensures |ValidNodes(rows, parse)| == |rows|
    ensures forall i :: 0 <= i < |rows| ==> Some(ValidNodes(rows, parse)[i]) == RowNode(rows[i], parse)
  {
    if rows != [] {
      var front := rows[..|rows| - 1];
      assert forall i :: 0 <= i < |front| ==> rows[i] == front[i];
      ValidNodesAllValid(front, parse);
    }
  }

  /** When no row is well formed, no node is produced. */
  lemma {:induction false} ValidNodesNoneValid(rows: seq<Row>, parse: Parser)
    requires forall i :: 0 <= i < |rows| ==> RowNode(rows[i], parse).None?
    ensures ValidNodes(rows, parse) == []
  {
    if rows != [] {
      var front := rows[..|rows| - 1];
      assert forall i :: 0 <= i < |front| ==> rows[i] == front[i];
      ValidNodesNoneValid(front, parse);
    }
  }

  /** `n` value-initialised nodes. */
  function Defaults(n: nat): (r: seq<EqNode>)
    ensures |r| == n
  {
    seq(n, _ => DefaultNode)
  }

  /** The node list `read_csv` hands on, as the code is written: the vector
      is constructed holding one default node per row and the nodes of the
      valid rows are appended after them. */
  function ReadCsvNodes(rows: seq<Row>, parse: Parser): (r: Result<seq<EqNode>, CsvError>)
    ensures r.Failure? <==> |rows| <= 1
    ensures r.Failure? ==> r.error == NoRows
    ensures r.Success? ==> |r.value| == |rows| + |ValidNodes(rows, parse)|
  {
    if |rows| <= 1 then Failure(NoRows)
    else
      var nodes := Defaults(|rows|) + ValidNodes(rows, parse);
      if nodes == [] then Failure(NoValidData) else Success(nodes)
  }

  /** The row loop of `read_csv`. A CSV of at most one row is refused before
      any node is built; otherwise every row is visited in file order (row 0
      included: a header is dropped only because it does not parse) and the
      rows with two parsable leading fields append their node. */
  method BuildNodes(rows: seq<Row>, parse: Parser) returns (res: Result<seq<EqNode>, CsvError>)
    ensures res == ReadCsvNodes(rows, parse)
    ensures res.Success? <==> |rows| >= 2
    ensures res.Failure? ==> res.error == NoRows
    ensures res.Success? ==>
      && |res.value| == |rows| + |ValidNodes(rows, parse)|
      && res.value[..|rows|] == Defaults(|rows|)
      && res.value[|rows|..] == ValidNodes(rows, parse)
  {
    if |rows| <= 1 {
      return Failure(NoRows);
    }
    var nodes := Defaults(|rows|);
    for row := 0 to |rows|
      invariant nodes == Defaults(|rows|) + ValidNodes(rows[..row], parse)
    {
      assert rows[..row + 1][..row] == rows[..row];
      var val := rows[row];
      if |val| < 2 {
        continue;
      }
      var freq, gain := parse(val[0]), parse(val[1]);
      if freq.None? || gain.None? {
        continue;
      }
      nodes := nodes + [EqNode(freq.value, gain.value)];
    }
    assert rows[..|rows|] == rows;
    if nodes == [] {
      return Failure(NoValidData);
    }
    return Success(nodes);
  }

  /** The "no valid data" error can never be reported: with at least two rows
      the list already holds the default nodes. */
  lemma NoValidDataUnreachable(rows: seq<Row>, parse: Parser)
    ensures ReadCsvNodes(rows, parse) != Failure(NoValidData)
  {
  }

  /** A CSV whose every row is malformed is accepted as written, and yields
      only default nodes. */
  lemma MalformedCsvAccepted(rows: seq<Row>, parse: Parser)
    requires |rows| >= 2
    requires forall i :: 0 <= i < |rows| ==> RowNode(rows[i], parse).None?
    ensures ReadCsvNodes(rows, parse) == Success(Defaults(|rows|))
  {
    ValidNodesNoneValid(rows, parse);
    assert Defaults(|rows|) + [] == Defaults(|rows|);
  }

  /** Concrete instance: a header and one data row, neither numeric. */
  lemma MalformedCsvExample()
    ensures ReadCsvNodes([["freq", "gain"], ["x", "y"]], _ => None)
      == Success([DefaultNode, DefaultNode])
  {
    var rows: seq<Row> := [["freq", "gain"], ["x", "y"]];
    MalformedCsvAccepted(rows, _ => None);
    assert Defaults(2) == [DefaultNode, DefaultNode];
  }

  /** As written, N well-formed rows give 2N nodes: N default nodes, then
      one node per row. */
  lemma WellFormedCsvDoubled(rows: seq<Row>, parse: Parser)
    requires |rows| >= 2
    requires forall i :: 0 <= i < |rows| ==> RowNode(rows[i], parse).Some?
    ensures ReadCsvNodes(rows, parse).Success?
    ensures |ReadCsvNodes(rows, parse).value| == 2 * |rows|
  {
    ValidNodesAllValid(rows, parse);
  }

  /** The node list with the vector built empty and only the valid rows
      appended, so that the "no valid data" check can fire. */
  function IntendedNodes(rows: seq<Row>, parse: Parser): (r: Result<seq<EqNode>, CsvError>)
    ensures r.Success? ==> r.value == ValidNodes(rows, parse) && r.value != []
    ensures r == Failure(NoValidData) <==> |rows| >= 2 && ValidNodes(rows, parse) == []
    ensures r == Failure(NoRows) <==> |rows| <= 1
  {
    if |rows| <= 1 then Failure(NoRows)
    else if ValidNodes(rows, parse) == [] then Failure(NoValidData)
    else Success(ValidNodes(rows, parse))
  }

  /** Under the intended node list a CSV with at least two rows of which none
      is well formed fails with "no valid data". */
  lemma IntendedRejectsMalformed(rows: seq<Row>, parse: Parser)
    requires |rows| >= 2
    requires forall i :: 0 <= i < |rows| ==> RowNode(rows[i], parse).None?
    ensures IntendedNodes(rows, parse) == Failure(NoValidData)
  {
    ValidNodesNoneValid(rows, parse);
  }

  /** Under the intended node list a CSV with at least two rows, all well
      formed, yields exactly one node per row, in row order. */
  lemma IntendedAcceptsWellFormed(rows: seq<Row>, parse: Parser)
    requires |rows| >= 2
    requires forall i :: 0 <= i < |rows| ==> RowNode(rows[i], parse).Some?
    ensures IntendedNodes(rows, parse).Success?
    ensures |IntendedNodes(rows, parse).value| == |rows|
    ensures forall i :: 0 <= i < |rows| ==>
      Some(IntendedNodes(rows, parse).value[i]) == RowNode(rows[i], parse)
  {
    ValidNodesAllValid(rows, parse);
  }
}
