/**
 * go-cut (cmd/cut/main.go): the field list, the columns picked from each
 * line and the rule deciding which lines print anything.
 */
module Cut {
  import opened Wrappers
  import opened Decimal
  import Text

  const Tab: string := "\t"

  /** Why main stops before reading any input. */
  datatype CutError =
    | NoFieldsSelected        // -f missing or empty
    | BadField(field: string) // a piece of the field list that is not a positive number

  /** A piece of the field list is usable when Sscanf "%d" reads a number greater than zero from it. */
  predicate IsFieldNumber(piece: string) {
    ScanInt(piece).Some? && ScanInt(piece).value > 0
  }

  /**
   * The loop of parseFields over the comma-separated pieces: each piece n
   * becomes the column index n - 1, in order and with duplicates kept; the
   * first unusable piece stops the parse.
   */
  function ParsePieces(pieces: seq<string>): (r: Result<seq<nat>, string>)
    ensures r.Success? <==> forall k :: 0 <= k < |pieces| ==> IsFieldNumber(pieces[k])
    ensures r.Success? ==> |r.value| == |pieces|
    ensures r.Success? ==> forall k :: 0 <= k < |pieces| ==> ScanInt(pieces[k]) == Some(r.value[k] + 1)
    ensures r.Failure? ==> r.error in pieces && !IsFieldNumber(r.error)
    ensures r.Failure? && 0 < |pieces| && IsFieldNumber(pieces[0]) ==> r.error in pieces[1..]
  {
    if |pieces| == 0 then Success([])
    else if !IsFieldNumber(pieces[0]) then Failure(pieces[0])
    else
      match ParsePieces(pieces[1..])
      case Failure(bad) => Failure(bad)
      case Success(rest) => Success([ScanInt(pieces[0]).value - 1] + rest)
  }

  /** The parse stops at the first unusable piece and reports that piece, whatever follows it. */
  lemma {:induction false} ParsePiecesStopsAtFirst(pieces: seq<string>, k: nat)
    requires k < |pieces| && !IsFieldNumber(pieces[k])
    requires forall j :: 0 <= j < k ==> IsFieldNumber(pieces[j])
    ensures ParsePieces(pieces) == Failure(pieces[k])
    decreases k
  {
    if k > 0 {
      assert IsFieldNumber(pieces[0]);
      assert forall j :: 0 <= j < k - 1 ==> pieces[1..][j] == pieces[j + 1];
      ParsePiecesStopsAtFirst(pieces[1..], k - 1);
    }
  }

  /** parseFields: split the -f value at commas and parse every piece. */
  function ParseFields(rawFields: string): (r: Result<seq<nat>, string>)
    ensures var pieces := Text.Split(rawFields, ",");
            && (r.Success? <==> forall k :: 0 <= k < |pieces| ==> IsFieldNumber(pieces[k]))
            && (r.Success? ==> 0 < |r.value| == |pieces|)
            && (r.Success? ==> forall k :: 0 <= k < |r.value| ==> r.value[k] < MaxInt64)
            && (r.Failure? ==> r.error in pieces && !IsFieldNumber(r.error))
  {
    var pieces := Text.Split(rawFields, ",");
    var r := ParsePieces(pieces);
    assert r.Success? ==> forall k :: 0 <= k < |r.value| ==> ScanInt(pieces[k]).value <= MaxInt64;
    r
  }

  /** The -f value naming the given column indexes: the 1-based numbers, comma-separated. */
  function FieldList(indexes: seq<nat>): string {
    Text.Join(seq(|indexes|, k requires 0 <= k < |indexes| => NatToString(indexes[k] + 1)), ",")
  }

  /** parseFields reads back every field list written in plain decimal, duplicates and order included. */
  lemma ParseFieldList(indexes: seq<nat>)
    requires 0 < |indexes|
    requires forall k :: 0 <= k < |indexes| ==> indexes[k] < MaxInt64
    ensures ParseFields(FieldList(indexes)) == Success(indexes)
  {
    var pieces := seq(|indexes|, k requires 0 <= k < |indexes| => NatToString(indexes[k] + 1));
    forall k | 0 <= k < |pieces|
      ensures !Text.Contains(pieces[k], [','])
      ensures ScanInt(pieces[k]) == Some(indexes[k] + 1)
    {
      Text.ContainsChar(pieces[k], ',');
      assert IntToString(indexes[k] + 1) + "" == pieces[k];
      ScanIntIntToString(indexes[k] + 1, "");
    }
    Text.SplitJoin(pieces, ',');
    assert Text.Split(FieldList(indexes), ",") == pieces;
    var r := ParsePieces(pieces);
    assert r.Success?;
    assert r.value == indexes;
  }

  /** The field list "1,1,2" selects the first column twice, then the second. */
  lemma ParseFieldsKeepsDuplicates()
    ensures ParseFields("1,1,2") == Success([0, 0, 1])
  {
    assert FieldList([0, 0, 1]) == "1,1,2" by {
      assert NatToString(1) == "1" && NatToString(2) == "2";
      var pieces := seq(3, k requires 0 <= k < 3 => NatToString([0, 0, 1][k] + 1));
      assert pieces == ["1", "1", "2"];
      assert pieces[1..] == ["1", "2"] && pieces[1..][1..] == ["2"];
      assert Text.Join(["2"], ",") == "2";
      assert Text.Join(["1", "2"], ",") == "1" + "," + "2";
      assert Text.Join(pieces, ",") == "1" + "," + ("1" + "," + "2");
      assert "1" + "," + ("1" + "," + "2") == "1,1,2";
    }
    ParseFieldList([0, 0, 1]);
  }

  lemma ZeroFieldRejected()
    ensures ParseFields("0").Failure?
  {
    assert Text.Split("0", ",") == ["0"] by {
      Text.ContainsChar("0", ',');
    }
    assert ScanInt("0") == Some(0) by {
      assert IntToString(0) + "" == "0";
      ScanIntIntToString(0, "");
    }
  }

  lemma EmptyFieldListRejected()
    ensures ParseFields("").Failure?
  {
    assert Text.Split("", ",") == [""] by {
      Text.ContainsChar("", ',');
    }
    assert ScanInt("") == None;
  }

  lemma SplitOneX()
    ensures Text.Split("1,x", ",") == ["1", "x"]
  {
    Text.ContainsChar("1", ',');
    Text.ContainsChar("x", ',');
    Text.SplitJoin(["1", "x"], ',');
    assert ["1", "x"][1..] == ["x"];
    assert Text.Join(["x"], ",") == "x";
    assert Text.Join(["1", "x"], ",") == "1" + "," + "x";
    assert "1" + "," + "x" == "1,x";
  }

  lemma NonNumericFieldRejected()
    ensures ParseFields("1,x").Failure?
  {
    SplitOneX();
    assert ScanInt("x") == None;
    assert !IsFieldNumber(["1", "x"][1]);
  }

  /** A zero, a non-numeric piece or an empty list stops the parse. */
  lemma ParseFieldsRejects()
    ensures ParseFields("0").Failure?
    ensures ParseFields("1,x").Failure?
    ensures ParseFields("").Failure?
  {
    ZeroFieldRejected();
    NonNumericFieldRejected();
    EmptyFieldListRejected();
  }

  /** The columns the field indexes name, in the order given; indexes past the last column are skipped. */
  function Picked(columns: seq<string>, fieldIndexes: seq<nat>): (r: seq<string>)
    ensures |r| <= |fieldIndexes|
    ensures forall k :: 0 <= k < |r| ==> r[k] in columns
    ensures (forall k :: 0 <= k < |fieldIndexes| ==> fieldIndexes[k] >= |columns|) ==> r == []
    ensures (forall k :: 0 <= k < |fieldIndexes| ==> fieldIndexes[k] < |columns|)
            ==> |r| == |fieldIndexes| && forall k :: 0 <= k < |r| ==> r[k] == columns[fieldIndexes[k]]
    decreases |fieldIndexes|
  {
    if |fieldIndexes| == 0 then []
    else
      var last := |fieldIndexes| - 1;
      var i := fieldIndexes[last];
      Picked(columns, fieldIndexes[..last]) + if i < |columns| then [columns[i]] else []
  }

  /** One index picks its column when it is in range, and nothing otherwise. */
  lemma PickedOne(columns: seq<string>, i: nat)
    ensures Picked(columns, [i]) == if i < |columns| then [columns[i]] else []
  {
    assert [i][..0] == [];
  }

  /** The indexes are handled one at a time, in the order given. */
  lemma {:induction false} PickedAppend(columns: seq<string>, a: seq<nat>, b: seq<nat>)
    ensures Picked(columns, a + b) == Picked(columns, a) + Picked(columns, b)
    decreases |b|
  {
    if |b| == 0 {
      assert a + b == a;
    } else {
      var init := b[..|b| - 1];
      var i := b[|b| - 1];
      var tail := if i < |columns| then [columns[i]] else [];
      assert b == init + [i];
      assert (a + b)[..|a + b| - 1] == a + init;
      calc {
        Picked(columns, a + b);
        Picked(columns, a + init) + tail;
      == { PickedAppend(columns, a, init); }
        (Picked(columns, a) + Picked(columns, init)) + tail;
        Picked(columns, a) + (Picked(columns, init) + tail);
        Picked(columns, a) + Picked(columns, b);
      }
    }
  }

  /** extractFields: the picked columns joined with a tab, whatever delimiter split them. */
  function ExtractFields(columns: seq<string>, fieldIndexes: seq<nat>): (output: string)
    ensures (forall k :: 0 <= k < |fieldIndexes| ==> fieldIndexes[k] >= |columns|) ==> output == ""
    ensures 0 < |fieldIndexes| && fieldIndexes[0] < |columns|
            ==> |columns[fieldIndexes[0]]| <= |output| && output[..|columns[fieldIndexes[0]]|] == columns[fieldIndexes[0]]
  {
    assert 0 < |fieldIndexes| && fieldIndexes[0] < |columns| ==> Picked(columns, fieldIndexes)[0] == columns[fieldIndexes[0]] by {
      if 0 < |fieldIndexes| && fieldIndexes[0] < |columns| {
        PickedAppend(columns, [fieldIndexes[0]], fieldIndexes[1..]);
        assert [fieldIndexes[0]] + fieldIndexes[1..] == fieldIndexes;
        PickedOne(columns, fieldIndexes[0]);
      }
    }

    Text.Join(Picked(columns, fieldIndexes), Tab)
  }

  /** Splitting the output at tabs gives back the picked columns, when none of them holds a tab. */
  lemma ExtractFieldsSplitsBack(columns: seq<string>, fieldIndexes: seq<nat>)
    requires 0 < |Picked(columns, fieldIndexes)|
    requires forall k :: 0 <= k < |columns| ==> '\t' !in columns[k]
    ensures Text.Split(ExtractFields(columns, fieldIndexes), Tab) == Picked(columns, fieldIndexes)
  {
    var picked := Picked(columns, fieldIndexes);
    forall k | 0 <= k < |picked|
      ensures !Text.Contains(picked[k], ['\t'])
    {
      Text.ContainsChar(picked[k], '\t');
    }
    Text.SplitJoin(picked, '\t');
  }

  /**
   * With every index in range and no picked column holding a tab, the
   * output is the columns the indexes name, in the order given and with
   * repeats, tab-separated.
   */
  lemma ExtractFieldsInRange(columns: seq<string>, fieldIndexes: seq<nat>)
    requires 0 < |fieldIndexes|
    requires forall k :: 0 <= k < |fieldIndexes| ==> fieldIndexes[k] < |columns|
    requires forall k :: 0 <= k < |fieldIndexes| ==> '\t' !in columns[fieldIndexes[k]]
    ensures var parts := Text.Split(ExtractFields(columns, fieldIndexes), Tab);
            && |parts| == |fieldIndexes|
            && forall k :: 0 <= k < |fieldIndexes| ==> parts[k] == columns[fieldIndexes[k]]
  {
    var picked := Picked(columns, fieldIndexes);
    forall k | 0 <= k < |picked|
      ensures !Text.Contains(picked[k], ['\t'])
    {
      Text.ContainsChar(picked[k], '\t');
    }
    Text.SplitJoin(picked, '\t');
  }

  /** The cases of extractFields' own tests: in-order selection, and "" when every index is past the end. */
  lemma ExtractFieldsExamples()
    ensures ExtractFields(["a", "b", "c"], [0, 1]) == "a\tb"
    ensures ExtractFields(["a", "b", "c"], [1, 2]) == "b\tc"
    ensures ExtractFields(["a", "b", "c"], [2]) == "c"
    ensures ExtractFields(["a", "b", "c"], [3]) == ""
  {
    assert [0, 1][..1] == [0];
    assert [1, 2][..1] == [1];
  }

  /** An empty -d falls back to the tab. */
  function DefaultDelimiter(delimiter: string): (d: string)
    ensures 0 < |d|
    ensures delimiter != "" ==> d == delimiter
  {
    if delimiter == "" then Tab else delimiter
  }

  /**
   * What main prints for one input line, before Println's newline: with -s a
   * line without the delimiter prints nothing, and so does any line whose
   * extracted output is empty.
   */
  function CutLine(line: string, fieldIndexes: seq<nat>, delimiter: string, separated: bool): (out: Option<string>)
    requires 0 < |delimiter|
    ensures out.Some? ==> out.value != ""
    ensures out.Some? ==> out.value == ExtractFields(Text.Split(line, delimiter), fieldIndexes)
    ensures separated && !Text.Contains(line, delimiter) ==> out == None
    ensures out.Some? <==> (!separated || Text.Contains(line, delimiter))
                           && ExtractFields(Text.Split(line, delimiter), fieldIndexes) != ""
  {
    if separated && !Text.Contains(line, delimiter) then None
    else
      var output := ExtractFields(Text.Split(line, delimiter), fieldIndexes);
      if output != "" then Some(output) else None
  }

  /**
   * With the default delimiter, the printed fields are the selected columns
   * of the line, tab-separated: splitting the output at tabs recovers them.
   */
  lemma TabCutRoundTrip(line: string, fieldIndexes: seq<nat>, separated: bool)
    requires CutLine(line, fieldIndexes, Tab, separated).Some?
    ensures var columns := Text.Split(line, Tab);
            Text.Split(CutLine(line, fieldIndexes, Tab, separated).value, Tab) == Picked(columns, fieldIndexes)
  {
    var columns := Text.Split(line, Tab);
    forall k | 0 <= k < |columns|
      ensures '\t' !in columns[k]
    {
      Text.ContainsChar(columns[k], '\t');
    }
    ExtractFieldsSplitsBack(columns, fieldIndexes);
  }

  /** Without -s, a line lacking the delimiter is one column: field 1 prints it whole. */
  lemma UndelimitedLine(line: string, delimiter: string)
    requires 0 < |delimiter| && line != ""
    requires !Text.Contains(line, delimiter)
    ensures CutLine(line, [0], delimiter, false) == Some(line)
    ensures CutLine(line, [0], delimiter, true) == None
  {
    Text.SplitWithoutSeparator(line, delimiter);
    assert [0][..0] == [];
  }

  lemma SplitAtCommas()
    ensures Text.Split("a,b,c", ",") == ["a", "b", "c"]
  {
    Text.ContainsChar("a", ',');
    Text.ContainsChar("b", ',');
    Text.ContainsChar("c", ',');
    Text.SplitJoin(["a", "b", "c"], ',');
    assert ["a", "b", "c"][1..] == ["b", "c"] && ["b", "c"][1..] == ["c"];
    assert Text.Join(["c"], ",") == "c";
    assert Text.Join(["b", "c"], ",") == "b" + "," + "c";
    assert Text.Join(["a", "b", "c"], ",") == "a" + "," + ("b" + "," + "c");
    assert "a" + "," + ("b" + "," + "c") == "a,b,c";
  }

  /** The output joiner is a tab even when the input is split at commas. */
  lemma CommaInputTabOutput()
    ensures CutLine("a,b,c", [0, 2], ",", false) == Some("a\tc")
  {
    SplitAtCommas();
    assert [0, 2][..1] == [0];
    assert Picked(["a", "b", "c"], [0, 2]) == ["a", "c"];
    assert ["a", "c"][1..] == ["c"];
    assert ExtractFields(["a", "b", "c"], [0, 2]) == "a" + "\t" + "c";
    assert "a" + "\t" + "c" == "a\tc";
  }

  /** The scanner loop of main: the printed outputs, in input order. */
  function CutLines(lines: seq<string>, fieldIndexes: seq<nat>, delimiter: string, separated: bool): (out: seq<string>)
    requires 0 < |delimiter|
    ensures |out| <= |lines|
    ensures forall k :: 0 <= k < |out| ==> out[k] != ""
    decreases |lines|
  {
    if |lines| == 0 then []
    else
      var rest := CutLines(lines[1..], fieldIndexes, delimiter, separated);
      match CutLine(lines[0], fieldIndexes, delimiter, separated)
      case Some(output) => [output] + rest
      case None => rest
  }

  /** A single line prints its cut fields, or nothing. */
  lemma CutLinesOfOneLine(line: string, fieldIndexes: seq<nat>, delimiter: string, separated: bool)
    requires 0 < |delimiter|
    ensures CutLines([line], fieldIndexes, delimiter, separated)
            == match CutLine(line, fieldIndexes, delimiter, separated)
               case Some(output) => [output]
               case None => []
  {
    assert [line][1..] == [];
  }

  /** The lines are cut one at a time: the outputs of a + b are those of a, then those of b. */
  lemma {:induction false} CutLinesAppend(a: seq<string>, b: seq<string>, fieldIndexes: seq<nat>,
                                          delimiter: string, separated: bool)
    requires 0 < |delimiter|
    ensures CutLines(a + b, fieldIndexes, delimiter, separated)
            == CutLines(a, fieldIndexes, delimiter, separated) + CutLines(b, fieldIndexes, delimiter, separated)
    decreases |a|
  {
    if |a| == 0 {
      assert a + b == b;
    } else {
      assert (a + b)[0] == a[0];
      assert (a + b)[1..] == a[1..] + b;
      CutLinesAppend(a[1..], b, fieldIndexes, delimiter, separated);
    }
  }

  /** main: check -f, parse it (fatal on a bad piece), default the delimiter, then cut every line. */
  function Cut(fields: string, delimiter: string, separated: bool, lines: seq<string>): (r: Result<seq<string>, CutError>)
    ensures fields == "" ==> r == Failure(NoFieldsSelected)
    ensures fields != "" && ParseFields(fields).Failure? ==> r == Failure(BadField(ParseFields(fields).error))
    ensures fields != "" && ParseFields(fields).Success?
            ==> r == Success(CutLines(lines, ParseFields(fields).value, DefaultDelimiter(delimiter), separated))
    ensures r.Failure? && r.error.BadField? ==> !IsFieldNumber(r.error.field)
    ensures r.Success? ==> |r.value| <= |lines| && forall k :: 0 <= k < |r.value| ==> r.value[k] != ""
  {
    if fields == "" then Failure(NoFieldsSelected)
    else
      match ParseFields(fields)
      case Failure(bad) => Failure(BadField(bad))
      case Success(fieldIndexes) => Success(CutLines(lines, fieldIndexes, DefaultDelimiter(delimiter), separated))
  }
}
