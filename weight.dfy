/**
 * The weight sheet API: a year's rows are fetched from a fixed range of the
 * sheet named after the year; every row of exactly three cells maps its first
 * cell (a date label) to the number in its third; this year's and last year's
 * maps are merged. Credentials travel single-quoted and are turned back into
 * JSON by swapping the quote characters.
 */
module WeightSheet {
  import opened Wrappers
  import opened Strings

  /** A sheet row: its cells' formatted text. */
  type Row = seq<string>

  /** The fetched value range; its `values` field is absent when the range is empty. */
  datatype ValueRange = ValueRange(values: Option<seq<Row>>)

  datatype WeightError =
    | FetchFailed(reason: string)   // the Sheets call raised
    | NotAFloat(cell: string)       // `float(row[2])` raised on this cell

  /** date label -> weight */
  type Weights = map<string, real>

  /** The fixed cell range of a year's sheet: rows 2 to 367, columns 1 to 3. */
  const RangeCells := "R2C1:R367C3"

  /** The range requested for `year`: its sheet, then the fixed cells. */
  function SheetRange(year: string): string {
    year + "!" + RangeCells
  }

  /** For a year with no `!` in it, the range names exactly that sheet and the
      fixed cells. */
  lemma SheetRangeParts(year: string)
    requires '!' !in year
    ensures SplitOnce(SheetRange(year), "!") == Some((year, RangeCells))
  {
    var r := SheetRange(year);
    assert r[|year|..|year| + 1] == "!";
    assert OccursAt(r, "!", |year|);
    forall k | 0 <= k < |year| ensures !OccursAt(r, "!", k) {
      assert r[k] == year[k];
      assert r[k..k + 1] == [year[k]];
    }
    var s := SplitOnce(r, "!");
    assert s.Some?;
    assert |s.value.0| == |year|;
    assert r[..|year|] == year;
    assert r[|year| + 1..] == RangeCells;
  }

  /** The dict comprehension `{row[0]: float(row[2]) for row in rows if len(row) == 3}`,
      with `float` given as the partial parse `parse`. */
  function RowsToWeights(rows: seq<Row>, parse: string -> Option<real>): Result<Weights, WeightError> {
    if rows == [] then Success(map[])
    else
      match RowsToWeights(rows[..|rows| - 1], parse)
      case Failure(e) => Failure(e)
      case Success(m) =>
        var row := rows[|rows| - 1];
        if |row| == 3 then
          match parse(row[2])
          case None => Failure(NotAFloat(row[2]))
          case Some(v) => Success(m[row[0] := v])
        else Success(m)
  }

  /** Row `i` has three cells and its date label is `k`. */
  predicate KeyedAt(rows: seq<Row>, i: int, k: string) {
    0 <= i < |rows| && |rows[i]| == 3 && rows[i][0] == k
  }

  /** Row `i` has three cells and its third does not parse. */
  predicate BadRow(rows: seq<Row>, parse: string -> Option<real>, i: int) {
    0 <= i < |rows| && |rows[i]| == 3 && parse(rows[i][2]).None?
  }

  /** The comprehension fails exactly when some three-cell row's third cell
      does not parse, and then it reports the first such cell: no partial map. */
  lemma {:induction false} WeightsFailOnFirstBadRow(rows: seq<Row>, parse: string -> Option<real>)
    ensures RowsToWeights(rows, parse).Failure? <==> exists i :: BadRow(rows, parse, i)
    ensures RowsToWeights(rows, parse).Failure? ==>
              exists i :: BadRow(rows, parse, i)
                          && RowsToWeights(rows, parse).error == NotAFloat(rows[i][2])
                          && forall j :: 0 <= j < i ==> !BadRow(rows, parse, j)
  {
    if rows != [] {
      var n := |rows|;
      var prefix := rows[..n - 1];
      WeightsFailOnFirstBadRow(prefix, parse);
      forall j | 0 <= j < n - 1 ensures BadRow(prefix, parse, j) == BadRow(rows, parse, j) {
        assert prefix[j] == rows[j];
      }
      if RowsToWeights(prefix, parse).Failure? {
        var i :| BadRow(prefix, parse, i) && RowsToWeights(prefix, parse).error == NotAFloat(prefix[i][2])
                 && forall j :: 0 <= j < i ==> !BadRow(prefix, parse, j);
        assert BadRow(rows, parse, i);
      } else if BadRow(rows, parse, n - 1) {
        assert forall j :: 0 <= j < n - 1 ==> !BadRow(rows, parse, j);
      } else {
        forall i | 0 <= i < n ensures !BadRow(rows, parse, i) {
          if i < n - 1 {
            assert !BadRow(prefix, parse, i);
          }
        }
      }
    }
  }

  /** On success, the keys are exactly the date labels of the three-cell rows. */
  lemma {:induction false} WeightKeys(rows: seq<Row>, parse: string -> Option<real>, k: string)
    requires RowsToWeights(rows, parse).Success?
    ensures k in RowsToWeights(rows, parse).value <==> exists i :: KeyedAt(rows, i, k)
  {
    if rows == [] {
      assert forall i :: !KeyedAt(rows, i, k);
    } else {
      var n := |rows|;
      var prefix := rows[..n - 1];
      WeightKeys(prefix, parse, k);
      if KeyedAt(rows, n - 1, k) {
      } else if k in RowsToWeights(prefix, parse).value {
        var i :| KeyedAt(prefix, i, k);
        assert KeyedAt(rows, i, k);
      } else {
        forall i | 0 <= i < n ensures !KeyedAt(rows, i, k) {
          if i < n - 1 {
            assert rows[i] == prefix[i];
            assert !KeyedAt(prefix, i, k);
          }
        }
      }
    }
  }

  /** On success, a label maps to the parsed third cell of the LAST three-cell
      row carrying it: later rows overwrite earlier ones and the second cell
      plays no part. */
  lemma {:induction false} WeightLastRowWins(rows: seq<Row>, parse: string -> Option<real>, i: int, k: string)
    requires RowsToWeights(rows, parse).Success?
    requires KeyedAt(rows, i, k)
    requires forall j :: i < j < |rows| ==> !KeyedAt(rows, j, k)
    ensures k in RowsToWeights(rows, parse).value
    ensures parse(rows[i][2]) == Some(RowsToWeights(rows, parse).value[k])
  {
    var n := |rows|;
    var prefix := rows[..n - 1];
    if i < n - 1 {
      assert KeyedAt(prefix, i, k);
      forall j | i < j < |prefix| ensures !KeyedAt(prefix, j, k) {
        assert !KeyedAt(rows, j, k);
      }
      WeightLastRowWins(prefix, parse, i, k);
      assert !KeyedAt(rows, n - 1, k);
    }
  }

  /** A row that does not have exactly three cells, wherever it stands, changes
      nothing. */
  lemma {:induction false} RaggedRowIgnored(pre: seq<Row>, row: Row, post: seq<Row>, parse: string -> Option<real>)
    requires |row| != 3
    ensures RowsToWeights(pre + [row] + post, parse) == RowsToWeights(pre + post, parse)
    decreases |post|
  {
    if post == [] {
      assert pre + [row] + post == pre + [row];
      assert (pre + [row])[..|pre|] == pre;
      assert pre + post == pre;
    } else {
      var post' := post[..|post| - 1];
      var x := post[|post| - 1];
      assert (pre + [row] + post)[..|pre + [row] + post| - 1] == pre + [row] + post';
      assert (pre + post)[..|pre + post| - 1] == pre + post';
      RaggedRowIgnored(pre, row, post', parse);
    }
  }

  /** `json.loads(credentials.replace("'", '"'))`: the stored single-quoted
      credentials turned back into JSON text. */
  function ToJsonQuotes(credentials: string): string {
    ReplaceChar(credentials, '\'', '"')
  }

  /** `json.dumps(json_data).replace('"', "'")` in `json_credentials_to_str`. */
  function ToStoredQuotes(json: string): string {
    ReplaceChar(json, '"', '\'')
  }

  /** The stored form has no double quote. */
  lemma StoredHasNoDoubleQuote(json: string)
    ensures '"' !in ToStoredQuotes(json)
  {
    ReplaceRemovesOld(json, '"', '\'');
  }

  /** Swapping back recovers the JSON text exactly when it held no single quote. */
  lemma CredentialsRoundTrip(json: string)
    ensures ToJsonQuotes(ToStoredQuotes(json)) == json <==> '\'' !in json
  {
    ReplaceRoundTrip(json, '"', '\'');
  }

  /** The Sheets `values().get(spreadsheetId, range).execute()` call, given the
      sheet id, the JSON credentials and the range. */
  type SheetFetch = (string, string, string) -> Result<ValueRange, string>

  /** `get_weight_data_for_year`. */
  function WeightDataForYear(sheetId: string, credentials: string, year: string,
                             fetch: SheetFetch, parse: string -> Option<real>): Result<Weights, WeightError>
  {
    match fetch(sheetId, ToJsonQuotes(credentials), SheetRange(year))
    case Failure(reason) => Failure(FetchFailed(reason))
    case Success(result) => RowsToWeights(result.values.GetOr([]), parse)
  }

  /** The ranges `get_recent_weight_data` requests, `str(year) + "!R2C1:R367C3"`,
      name exactly that year's sheet and the fixed cells. */
  lemma YearRangeParts(year: int)
    ensures '!' !in IntToDecimal(year)
    ensures SplitOnce(SheetRange(IntToDecimal(year)), "!") == Some((IntToDecimal(year), RangeCells))
  {
    var y := IntToDecimal(year);
    SheetRangeParts(y);
  }

  /** `get_recent_weight_data`: this year's map, updated in place with last
      year's. This year is extracted first, so its failure is the one reported. */
  method GetRecentWeightData(sheetId: string, credentials: string, currentYear: int,
                             fetch: SheetFetch, parse: string -> Option<real>)
    returns (r: Result<Weights, WeightError>)
    ensures var cur := WeightDataForYear(sheetId, credentials, IntToDecimal(currentYear), fetch, parse);
            var last := WeightDataForYear(sheetId, credentials, IntToDecimal(currentYear - 1), fetch, parse);
            && (cur.Failure? ==> r == Failure(cur.error))
            && (cur.Success? && last.Failure? ==> r == Failure(last.error))
            && (cur.Success? && last.Success? ==>
                  && r.Success?
                  && r.value.Keys == cur.value.Keys + last.value.Keys
                  && (forall k :: k in last.value ==> r.value[k] == last.value[k])
                  && (forall k :: k in cur.value && k !in last.value ==> r.value[k] == cur.value[k]))
  {
    var current := WeightDataForYear(sheetId, credentials, IntToDecimal(currentYear), fetch, parse);
    if current.Failure? {
      return Failure(current.error);
    }
    var data := current.value;
    var lastYear := WeightDataForYear(sheetId, credentials, IntToDecimal(currentYear - 1), fetch, parse);
    if lastYear.Failure? {
      return Failure(lastYear.error);
    }
    data := data + lastYear.value;  // data.update(...)
    return Success(data);
  }
}
