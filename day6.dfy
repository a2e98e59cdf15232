/**
 * Day 6 (src/day_6.rs): a worksheet of problems laid out side by side. The
 * columns are cut apart at character positions where every line holds a
 * space; each problem's operator sits in the last line at the problem's
 * first position. Part 1 reads each problem's numbers row by row, part 2
 * character column by character column, right to left.
 */
module Day6 {
  import opened Wrappers
  import opened Text

  datatype Operator = Add | Sub | Multiply | Divide

  /** The symbol each operator is written with. */
  function Symbol(op: Operator): char
  {
    match op
    case Add => '+'
    case Sub => '-'
    case Multiply => '*'
    case Divide => '/'
  }

  predicate IsOperatorSymbol(c: char)
  {
    c == '+' || c == '-' || c == '*' || c == '/'
  }

  /** The operator a symbol stands for, if any. */
  function FromSymbol(c: char): (r: Option<Operator>)
    ensures r.Some? <==> IsOperatorSymbol(c)
    ensures r.Some? ==> Symbol(r.value) == c
  {
    if c == '+' then Some(Add)
    else if c == '-' then Some(Sub)
    else if c == '*' then Some(Multiply)
    else if c == '/' then Some(Divide)
    else None
  }

  /** `TryFrom<u8>`: the four symbols, anything else an error naming the byte's value. */
  function OperatorFromByte(value: nat): (r: Result<Operator, string>)
    requires value < 256
    ensures r.Ok? <==> IsOperatorSymbol(value as char)
    ensures r.Ok? ==> Symbol(r.value) == value as char
    ensures r.Err? ==> r.error == "Unknown operator: " + NatToString(value)
  {
    match FromSymbol(value as char)
    case Some(op) => Ok(op)
    case None => Err("Unknown operator: " + NatToString(value))
  }

  /** `TryFrom<&str>`: the trimmed text is one of the four symbols; the error shows the text as given. */
  function OperatorFromStr(value: string): (r: Result<Operator, string>)
    ensures r.Ok? <==> |Trim(value)| == 1 && IsOperatorSymbol(Trim(value)[0])
    ensures r.Ok? ==> Symbol(r.value) == Trim(value)[0]
    ensures r.Err? ==> r.error == "Unknown operator: " + value
  {
    var t := Trim(value);
    if |t| == 1 && FromSymbol(t[0]).Some? then Ok(FromSymbol(t[0]).value)
    else Err("Unknown operator: " + value)
  }

  /** Every operator is read back from its symbol, as a byte or as one-character text. */
  lemma OperatorRoundTrip(op: Operator, text: string)
    requires |text| == 1 && text[0] == Symbol(op)
    ensures OperatorFromByte(Symbol(op) as nat) == Ok(op)
    ensures OperatorFromStr(text) == Ok(op)
  {
    SymbolRoundTrip(op);
    TrimUnchanged(text);
  }

  lemma SymbolRoundTrip(op: Operator)
    ensures FromSymbol(Symbol(op)) == Some(op) && !IsSpace(Symbol(op))
  {
  }

  // ---------------------------------------------------------------------
  // Reducing

  /**
   * `to_reduce_fn`: the usize operation. Subtraction below zero and
   * division by zero panic (None here).
   */
  function Apply(op: Operator, a: nat, b: nat): (r: Option<nat>)
    ensures r.None? <==> (op == Sub && a < b) || (op == Divide && b == 0)
  {
    match op
    case Add => Some(a + b)
    case Sub => if a < b then None else Some(a - b)
    case Multiply => Some(a * b)
    case Divide => if b == 0 then None else Some(a / b)
  }

  /** Subtraction undoes addition and division undoes multiplication. */
  lemma ApplyInverses(a: nat, b: nat)
    ensures Apply(Sub, Apply(Add, a, b).value, b) == Some(a)
    ensures b > 0 ==> Apply(Divide, Apply(Multiply, a, b).value, b) == Some(a)
  {
    if b > 0 {
      DivExact(a, b);
    }
  }

  /** An exact multiple divides back to its factor. */
  lemma DivExact(a: nat, b: nat)
    requires b > 0
    ensures (a * b) / b == a
  {
    var x := a * b;
    var q, r := x / b, x % b;
    assert x == b * q + r && 0 <= r < b;
    assert b * (a - q) == r;
    if a - q >= 1 {
      assert false;
    } else if a - q <= -1 {
      assert false;
    }
  }

  /** `reduce(reducer)`, a left fold from the first value, for at least one value. */
  function Fold(op: Operator, values: seq<nat>): Option<nat>
    requires values != []
  {
    if |values| == 1 then Some(values[0])
    else
      match Fold(op, values[..|values| - 1])
      case None => None
      case Some(acc) => Apply(op, acc, values[|values| - 1])
  }

  /** `reduce(reducer).unwrap_or(0)`. */
  function Reduce(op: Operator, values: seq<nat>): (r: Option<nat>)
    ensures values == [] ==> r == Some(0)
    ensures |values| == 1 ==> r == Some(values[0])
  {
    if values == [] then Some(0) else Fold(op, values)
  }

  function Sum(values: seq<nat>): nat
  {
    if values == [] then 0 else values[0] + Sum(values[1..])
  }

  function Product(values: seq<nat>): nat
  {
    if values == [] then 1 else values[0] * Product(values[1..])
  }

  lemma {:induction false} SumSnoc(values: seq<nat>, x: nat)
    ensures Sum(values + [x]) == Sum(values) + x
  {
    if values != [] {
      assert (values + [x])[1..] == values[1..] + [x];
      SumSnoc(values[1..], x);
    }
  }

  lemma {:induction false} ProductSnoc(values: seq<nat>, x: nat)
    ensures Product(values + [x]) == Product(values) * x
  {
    if values != [] {
      assert (values + [x])[1..] == values[1..] + [x];
      ProductSnoc(values[1..], x);
      assert values[0] * (Product(values[1..]) * x) == (values[0] * Product(values[1..])) * x;
    }
  }

  /** Reducing with `+` adds the values up; an empty column gives 0. */
  lemma {:induction false} ReduceAddIsSum(values: seq<nat>)
    ensures Reduce(Add, values) == Some(Sum(values))
  {
    if |values| > 1 {
      var init := values[..|values| - 1];
      ReduceAddIsSum(init);
      SumSnoc(init, values[|values| - 1]);
      assert init + [values[|values| - 1]] == values;
    } else if |values| == 1 {
      assert values[1..] == [];
    }
  }

  /** Reducing with `*` multiplies at least one value together. */
  lemma {:induction false} ReduceMultiplyIsProduct(values: seq<nat>)
    requires values != []
    ensures Reduce(Multiply, values) == Some(Product(values))
  {
    if |values| > 1 {
      var init := values[..|values| - 1];
      ReduceMultiplyIsProduct(init);
      ProductSnoc(init, values[|values| - 1]);
      assert init + [values[|values| - 1]] == values;
    } else {
      assert values[1..] == [];
    }
  }

  // ---------------------------------------------------------------------
  // Columns

  /** One problem: its rows of text and its operator. */
  datatype Column = Column(values: seq<string>, operator: Operator)

  /** `s.trim().parse()`: a row read as a number, if it is one. */
  function RowValue(row: string): Option<nat>
  {
    ParseNat(Trim(row))
  }

  /** `flat_map(|s| s.trim().parse())`: the rows that read as numbers, in order. */
  function RowValues(values: seq<string>): (r: seq<nat>)
    ensures |r| <= |values|
  {
    Present(seq(|values|, k requires 0 <= k < |values| => RowValue(values[k])))
  }

  /** The values present, in order. */
  function Present(xs: seq<Option<nat>>): (r: seq<nat>)
    ensures |r| <= |xs|
  {
    if xs == [] then []
    else
      match xs[0]
      case None => Present(xs[1..])
      case Some(v) => [v] + Present(xs[1..])
  }

  /** Nothing is present exactly when every entry is None. */
  lemma {:induction false} PresentEmpty(xs: seq<Option<nat>>)
    ensures Present(xs) == [] <==> forall k :: 0 <= k < |xs| ==> xs[k].None?
  {
    if xs != [] {
      PresentEmpty(xs[1..]);
      assert forall k :: 1 <= k < |xs| ==> xs[k] == xs[1..][k - 1];
    }
  }

  /** When every entry is present, all of them are kept, in order. */
  lemma {:induction false} PresentAll(xs: seq<Option<nat>>)
    requires forall k :: 0 <= k < |xs| ==> xs[k].Some?
    ensures |Present(xs)| == |xs|
    ensures forall k :: 0 <= k < |xs| ==> xs[k] == Some(Present(xs)[k])
  {
    if xs != [] {
      var tail := xs[1..];
      assert forall k :: 0 <= k < |tail| ==> tail[k] == xs[k + 1];
      PresentAll(tail);
      var r := Present(xs);
      assert r == [xs[0].value] + Present(tail);
      forall k | 0 <= k < |xs| ensures xs[k] == Some(r[k]) {
        if k > 0 {
          assert r[k] == Present(tail)[k - 1];
        }
      }
    }
  }

  /** No values exactly when no row is a number. */
  lemma RowValuesEmpty(values: seq<string>)
    ensures RowValues(values) == [] <==> forall k :: 0 <= k < |values| ==> RowValue(values[k]).None?
  {
    var xs := seq(|values|, k requires 0 <= k < |values| => RowValue(values[k]));
    assert forall k :: 0 <= k < |values| ==> xs[k] == RowValue(values[k]);
    PresentEmpty(xs);
  }

  /** When every row is a number, the values are the rows' numbers, in order. */
  lemma RowValuesAllNumbers(values: seq<string>)
    requires forall k :: 0 <= k < |values| ==> RowValue(values[k]).Some?
    ensures |RowValues(values)| == |values|
    ensures forall k :: 0 <= k < |values| ==> RowValue(values[k]) == Some(RowValues(values)[k])
  {
    var xs := seq(|values|, k requires 0 <= k < |values| => RowValue(values[k]));
    assert forall k :: 0 <= k < |values| ==> xs[k] == RowValue(values[k]);
    PresentAll(xs);
  }

  /**
   * `reduce_row_wise`: the column's operator over the rows that read as
   * numbers; adding never panics and multiplying only empties to 0.
   */
  function ReduceRowWise(column: Column): (r: Option<nat>)
    ensures RowValues(column.values) == [] ==> r == Some(0)
    ensures column.operator == Add ==> r == Some(Sum(RowValues(column.values)))
    ensures column.operator == Multiply && RowValues(column.values) != [] ==>
              r == Some(Product(RowValues(column.values)))
  {
    var values := RowValues(column.values);
    ReduceAddIsSum(values);
    if values != [] then ReduceMultiplyIsProduct(values); Reduce(column.operator, values)
    else Reduce(column.operator, values)
  }

  /** `map(String::len).max()`: the longest row. */
  function MaxLen(values: seq<string>): (r: nat)
    requires values != []
    ensures forall k :: 0 <= k < |values| ==> |values[k]| <= r
    ensures exists k :: 0 <= k < |values| && |values[k]| == r
  {
    if |values| == 1 then |values[0]|
    else
      var m := MaxLen(values[..|values| - 1]);
      var last := |values[|values| - 1]|;
      assert forall k :: 0 <= k < |values| - 1 ==> values[k] == values[..|values| - 1][k];
      if last > m then last else m
  }

  /** The digits at character position `i`, top row first; shorter rows and non-digits are skipped. */
  function ColumnDigits(values: seq<string>, i: nat): (r: string)
    ensures AllDigits(r)
  {
    if values == [] then []
    else
      var row := values[|values| - 1];
      ColumnDigits(values[..|values| - 1], i) + if i < |row| && IsDigit(row[i]) then [row[i]] else []
  }

  /**
   * What `extract_columnar_values` returns: one number per character
   * position up to the longest row, rightmost position first.
   */
  ghost function ColumnarValues(values: seq<string>): (r: seq<nat>)
    requires values != []
    ensures |r| == MaxLen(values)
  {
    var longest := MaxLen(values);
    seq<nat>(longest, k requires 0 <= k < longest => DigitsValue(ColumnDigits(values, longest - 1 - k)))
  }

  /** One more row extends each position's digits by that row's character there, if a digit. */
  lemma ColumnDigitsStep(values: seq<string>, row: nat, i: nat)
    requires row < |values|
    ensures ColumnDigits(values[..row + 1], i) == ColumnDigits(values[..row], i) +
      if i < |values[row]| && IsDigit(values[row][i]) then [values[row][i]] else []
  {
    assert values[..row + 1][..row] == values[..row];
  }

  /** Appending a digit shifts the value one decimal place. */
  lemma DigitsValueSnoc(s: string, c: char)
    requires AllDigits(s) && IsDigit(c)
    ensures DigitsValue(s + [c]) == DigitsValue(s) * 10 + DigitValue(c)
  {
    assert (s + [c])[..|s|] == s;
  }

  /**
   * `extract_columnar_values`: a zeroed buffer as long as the longest row;
   * every row, scanned right to left, appends each digit to its position's
   * number; the buffer is then reversed. The source unwraps the maximum, so
   * a column without rows panics (None).
   */
  method ExtractColumnarValues(values: seq<string>) returns (r: Option<seq<nat>>)
    ensures r.None? <==> values == []
    ensures r.Some? ==> r.value == ColumnarValues(values)
  {
    if values == [] {
      return None;
    }
    var longest := MaxLen(values);
    var columnarValues := new nat[longest](_ => 0);
    FillColumns(values, columnarValues);
    var reversed := seq<nat>(longest, k requires 0 <= k < longest reads columnarValues => columnarValues[longest - 1 - k]);
    assert forall k :: 0 <= k < longest ==> reversed[k] == ColumnarValues(values)[k];
    r := Some(reversed);
  }

  /** The outer loop: row by row, each position's number gets the digits of that position. */
  method FillColumns(values: seq<string>, columnarValues: array<nat>)
    requires forall k :: 0 <= k < |values| ==> |values[k]| <= columnarValues.Length
    requires forall j :: 0 <= j < columnarValues.Length ==> columnarValues[j] == 0
    modifies columnarValues
    ensures forall j :: 0 <= j < columnarValues.Length ==> columnarValues[j] == DigitsValue(ColumnDigits(values, j))
  {
    assert values[..0] == [];
    for row := 0 to |values|
      invariant forall j :: 0 <= j < columnarValues.Length ==> columnarValues[j] == DigitsValue(ColumnDigits(values[..row], j))
    {
      AddRow(columnarValues, values[row]);
      forall j | 0 <= j < columnarValues.Length
        ensures columnarValues[j] == DigitsValue(ColumnDigits(values[..row + 1], j))
      {
        ExtendStep(values, row, j);
      }
    }
    assert values[..|values|] == values;
  }

  /** The inner loop: one row, right to left, appends its digits to their positions' numbers. */
  method AddRow(columnarValues: array<nat>, line: string)
    requires |line| <= columnarValues.Length
    modifies columnarValues
    ensures forall j :: 0 <= j < columnarValues.Length ==> columnarValues[j] == Extend(old(columnarValues[j]), line, j)
  {
    var i := |line|;
    while i > 0
      invariant 0 <= i <= |line|
      invariant forall j :: 0 <= j < i ==> columnarValues[j] == old(columnarValues[j])
      invariant forall j :: i <= j < columnarValues.Length ==> columnarValues[j] == Extend(old(columnarValues[j]), line, j)
    {
      i := i - 1;
      if !IsDigit(line[i]) {
        continue;
      }
      columnarValues[i] := columnarValues[i] * 10;
      columnarValues[i] := columnarValues[i] + DigitValue(line[i]);
    }
  }

  /** A position's number after one more row: one more digit if the row has a digit there. */
  function Extend(v: nat, line: string, j: nat): nat
  {
    if j < |line| && IsDigit(line[j]) then v * 10 + DigitValue(line[j]) else v
  }

  lemma ExtendStep(values: seq<string>, row: nat, j: nat)
    requires row < |values|
    ensures Extend(DigitsValue(ColumnDigits(values[..row], j)), values[row], j) ==
      DigitsValue(ColumnDigits(values[..row + 1], j))
  {
    ColumnDigitsStep(values, row, j);
    var line := values[row];
    if j < |line| && IsDigit(line[j]) {
      DigitsValueSnoc(ColumnDigits(values[..row], j), line[j]);
    } else {
      assert ColumnDigits(values[..row + 1], j) == ColumnDigits(values[..row], j);
    }
  }

  /** What `reduce_column_wise` gives: None for a column without rows or where the reduction panics. */
  ghost function ColumnWise(column: Column): Option<nat>
  {
    if column.values == [] then None else Reduce(column.operator, ColumnarValues(column.values))
  }

  /** A column of one single-digit row reduces to that digit, whatever the operator. */
  lemma SingleDigitColumn(op: Operator, c: char)
    requires IsDigit(c)
    ensures ColumnWise(Column([[c]], op)) == Some(DigitValue(c))
  {
    var values := [[c]];
    assert values[..0] == [];
    assert ColumnDigits(values, 0) == [c];
    assert ColumnarValues(values) == [DigitsValue([c])];
  }

  /** `reduce_column_wise`. */
  method ReduceColumnWise(column: Column) returns (r: Option<nat>)
    ensures r == ColumnWise(column)
  {
    var values := ExtractColumnarValues(column.values);
    if values.None? {
      return None;
    }
    r := Reduce(column.operator, values.value);
  }

  // ---------------------------------------------------------------------
  // The two parts

  /** Adds up per-column results; a panic in any column is a panic overall. */
  function SumAll(results: seq<Option<nat>>): (r: Option<nat>)
    ensures r.Some? <==> forall k :: 0 <= k < |results| ==> results[k].Some?
  {
    if results == [] then Some(0)
    else
      var rest := SumAll(results[1..]);
      assert forall k :: 1 <= k < |results| ==> results[k] == results[1..][k - 1];
      if results[0].None? || rest.None? then None else Some(results[0].value + rest.value)
  }

  /** `part1`: None exactly when some column's row-wise reduction panics. */
  function Part1(columns: seq<Column>): (r: Option<nat>)
    ensures r.Some? <==> forall k :: 0 <= k < |columns| ==> ReduceRowWise(columns[k]).Some?
  {
    var results := seq(|columns|, k requires 0 <= k < |columns| => ReduceRowWise(columns[k]));
    assert forall k :: 0 <= k < |columns| ==> results[k] == ReduceRowWise(columns[k]);
    SumAll(results)
  }

  /** `part2`: None exactly when some column has no rows or its column-wise reduction panics. */
  ghost function Part2(columns: seq<Column>): (r: Option<nat>)
    ensures r.Some? <==> forall k :: 0 <= k < |columns| ==> columns[k].values != [] && ColumnWise(columns[k]).Some?
  {
    var results := seq(|columns|, k requires 0 <= k < |columns| => ColumnWise(columns[k]));
    assert forall k :: 0 <= k < |columns| ==> results[k] == ColumnWise(columns[k]);
    SumAll(results)
  }

  // ---------------------------------------------------------------------
  // Cutting the worksheet into columns

  /**
   * `lines.iter().skip(1).all(|line| line.as_bytes()[i] == b' ')`: the
   * check stops at the first line without a space at `i`, and indexing a
   * line that is too short before that panics (None).
   */
  function SpaceColumn(rest: seq<string>, i: nat): (r: Option<bool>)
    ensures r == Some(true) <==> forall k :: 0 <= k < |rest| ==> i < |rest[k]| && rest[k][i] == ' '
  {
    if rest == [] then Some(true)
    else if |rest[0]| <= i then None
    else if rest[0][i] != ' ' then Some(false)
    else
      assert forall k :: 1 <= k < |rest| ==> rest[k] == rest[1..][k - 1];
      SpaceColumn(rest[1..], i)
  }

  /** Prefixes the columns already pushed to the ones still to come. */
  function Prepend(done: seq<Column>, rest: Option<seq<Column>>): Option<seq<Column>>
  {
    match rest
    case None => None
    case Some(cs) => Some(done + cs)
  }

  lemma PrependPrepend(a: seq<Column>, b: seq<Column>, rest: Option<seq<Column>>)
    ensures Prepend([], rest) == rest
    ensures Prepend(a, Prepend(b, rest)) == Prepend(a + b, rest)
  {
    if rest.Some? {
      assert [] + rest.value == rest.value;
      assert a + (b + rest.value) == (a + b) + rest.value;
    }
  }

  /** `line[from..to]` of every row. */
  function Pieces(rows: seq<string>, from: nat, to: nat): (r: seq<string>)
    requires from <= to && forall k :: 0 <= k < |rows| ==> to <= |rows[k]|
    ensures |r| == |rows| && forall k :: 0 <= k < |rows| ==> r[k] == rows[k][from..to]
  {
    seq(|rows|, k requires 0 <= k < |rows| => rows[k][from..to])
  }

  /** `line[from..]` of every row. */
  function Tails(rows: seq<string>, from: nat): (r: seq<string>)
    requires forall k :: 0 <= k < |rows| ==> from <= |rows[k]|
    ensures |r| == |rows| && forall k :: 0 <= k < |rows| ==> r[k] == rows[k][from..]
  {
    seq(|rows|, k requires 0 <= k < |rows| => rows[k][from..])
  }

  /**
   * The columns the scan of `From<Input>` pushes from position `i` of the
   * first line on, the current problem having started at `starting`: a cut
   * at every space of the first line that all other lines share, each
   * problem's operator read from the last line at its first position, and
   * the rest after the last cut as the final problem.
   */
  function Scan(lines: seq<string>, i: nat, starting: nat): Option<seq<Column>>
    requires lines != [] && starting <= i <= |lines[0]|
    requires forall k :: 0 <= k < |lines| ==> starting <= |lines[k]|
    decreases |lines[0]| - i
  {
    var n := |lines|;
    if i == |lines[0]| then
      var values := Tails(lines[..n - 1], starting);
      match OperatorFromStr(lines[n - 1][starting..])
      case Err(_) => None
      case Ok(op) => Some([Column(values, op)])
    else if lines[0][i] != ' ' then Scan(lines, i + 1, starting)
    else
      match SpaceColumn(lines[1..], i)
      case None => None
      case Some(false) => Scan(lines, i + 1, starting)
      case Some(true) =>
        assert forall k :: 1 <= k < n ==> lines[k] == lines[1..][k - 1];
        var values := Pieces(lines[..n - 1], starting, i);
        var rest := Scan(lines, i + 1, i + 1);
        match OperatorFromStr(lines[n - 1][starting..starting + 1])
        case Err(_) => None
        case Ok(op) => Prepend([Column(values, op)], rest)
  }

  /** A position of the first line that is not a cut leaves the scan where it was. */
  lemma ScanSkip(lines: seq<string>, i: nat, starting: nat)
    requires lines != [] && starting <= i < |lines[0]|
    requires forall k :: 0 <= k < |lines| ==> starting <= |lines[k]|
    requires lines[0][i] != ' ' || SpaceColumn(lines[1..], i) == Some(false)
    ensures Scan(lines, i, starting) == Scan(lines, i + 1, starting)
  {
  }

  /**
   * At a space of the first line, a line too short to check stops the scan;
   * a cut pushes the problem read so far and starts the next after it.
   */
  lemma ScanCut(lines: seq<string>, i: nat, starting: nat)
    requires lines != [] && starting <= i < |lines[0]|
    requires forall k :: 0 <= k < |lines| ==> starting <= |lines[k]|
    requires lines[0][i] == ' ' && SpaceColumn(lines[1..], i) != Some(false)
    ensures SpaceColumn(lines[1..], i).None? ==> Scan(lines, i, starting).None?
    ensures SpaceColumn(lines[1..], i) == Some(true) ==>
      && (forall k :: 0 <= k < |lines| ==> i < |lines[k]|)
      && var operator := OperatorFromStr(lines[|lines| - 1][starting..starting + 1]);
         && (operator.Err? ==> Scan(lines, i, starting).None?)
         && (operator.Ok? ==>
               Scan(lines, i, starting) == Prepend([Column(Pieces(lines[..|lines| - 1], starting, i), operator.value)], Scan(lines, i + 1, i + 1)))
  {
    assert forall k :: 1 <= k < |lines| ==> lines[k] == lines[1..][k - 1];
  }

  /**
   * The body of the loop at position `i` of the first line: a position that
   * is not a shared space is skipped; at a shared space the problem between
   * the last cut and this one is pushed with the operator under its first
   * character. A line too short to check or an operator that does not parse
   * panics (None).
   */
  method Advance(lines: seq<string>, i: nat, starting: nat, columns: seq<Column>, ghost whole: Option<seq<Column>>)
    returns (r: Option<(seq<Column>, nat)>)
    requires lines != [] && starting <= i < |lines[0]|
    requires forall k :: 0 <= k < |lines| ==> starting <= |lines[k]|
    requires whole == Prepend(columns, Scan(lines, i, starting))
    ensures r.None? ==> whole.None?
    ensures r.Some? ==>
      && r.value.1 <= i + 1
      && (forall k :: 0 <= k < |lines| ==> r.value.1 <= |lines[k]|)
      && whole == Prepend(r.value.0, Scan(lines, i + 1, r.value.1))
  {
    var column := SpaceColumn(lines[1..], i);
    if lines[0][i] != ' ' || column == Some(false) {
      ScanSkip(lines, i, starting);
      r := Some((columns, starting));
    } else {
      var pushed := Cut(lines, i, starting, columns, whole);
      r := if pushed.None? then None else Some((pushed.value, i + 1));
    }
  }

  /**
   * At a space of the first line: a line too short to check panics; at a
   * shared space the problem between the last cut and this one is pushed
   * with the operator under its first character, and an operator that does
   * not parse panics (None for both).
   */
  method Cut(lines: seq<string>, i: nat, starting: nat, columns: seq<Column>, ghost whole: Option<seq<Column>>) returns (r: Option<seq<Column>>)
    requires lines != [] && starting <= i < |lines[0]|
    requires forall k :: 0 <= k < |lines| ==> starting <= |lines[k]|
    requires lines[0][i] == ' ' && SpaceColumn(lines[1..], i) != Some(false)
    requires whole == Prepend(columns, Scan(lines, i, starting))
    ensures r.None? ==> whole.None?
    ensures r.Some? ==> forall k :: 0 <= k < |lines| ==> i + 1 <= |lines[k]|
    ensures r.Some? ==> whole == Prepend(r.value, Scan(lines, i + 1, i + 1))
  {
    var n := |lines|;
    var allAreSpace := SpaceColumn(lines[1..], i);
    ScanCut(lines, i, starting);
    if allAreSpace.None? {
      PrependPrepend(columns, [], None);
      return None;
    }
    var values := Pieces(lines[..n - 1], starting, i);
    var operator := OperatorFromStr(lines[n - 1][starting..starting + 1]);
    if operator.Err? {
      PrependPrepend(columns, [], None);
      return None;
    }
    CutKeeps(lines, i, starting, columns, Column(values, operator.value), whole);
    return Some(columns + [Column(values, operator.value)]);
  }

  /** A cut that pushes a problem moves the scan past the space, the problem appended to those pushed before. */
  lemma CutKeeps(lines: seq<string>, i: nat, starting: nat, columns: seq<Column>, pushed: Column, whole: Option<seq<Column>>)
    requires lines != [] && starting <= i
    requires forall k :: 0 <= k < |lines| ==> i + 1 <= |lines[k]|
    requires Scan(lines, i, starting) == Prepend([pushed], Scan(lines, i + 1, i + 1))
    requires whole == Prepend(columns, Scan(lines, i, starting))
    ensures whole == Prepend(columns + [pushed], Scan(lines, i + 1, i + 1))
  {
    PrependPrepend(columns, [pushed], Scan(lines, i + 1, i + 1));
  }

  /** `From<Input>` given the lines: None where the source panics. */
  method ColumnsFrom(lines: seq<string>) returns (r: Option<seq<Column>>)
    ensures lines == [] ==> r.None?
    ensures lines != [] ==> r == Scan(lines, 0, 0)
  {
    if lines == [] {
      return None;
    }
    var n := |lines|;
    var first := lines[0];
    var columns: seq<Column> := [];
    var startingColumn: nat := 0;
    ghost var whole := Scan(lines, 0, 0);
    PrependPrepend([], [], whole);
    for i := 0 to |first|
      invariant startingColumn <= i
      invariant forall k :: 0 <= k < n ==> startingColumn <= |lines[k]|
      invariant whole == Prepend(columns, Scan(lines, i, startingColumn))
    {
      var next := Advance(lines, i, startingColumn, columns, whole);
      if next.None? {
        return None;
      }
      columns, startingColumn := next.value.0, next.value.1;
    }
    var values := Tails(lines[..n - 1], startingColumn);
    var operator := OperatorFromStr(lines[n - 1][startingColumn..]);
    if operator.Err? {
      return None;
    }
    columns := columns + [Column(values, operator.value)];
    return Some(columns);
  }

  /** Row `r` of every column, left to right. */
  function RowOf(columns: seq<Column>, r: nat): seq<string>
    requires forall k :: 0 <= k < |columns| ==> r < |columns[k].values|
  {
    seq(|columns|, k requires 0 <= k < |columns| => columns[k].values[r])
  }

  /**
   * The columns `cs` lose nothing of the lines from `starting` on: there is
   * one at least, every column has one value per line above the operator
   * line, and the pieces of each such line, joined with the space at each
   * cut, give the line back.
   */
  ghost predicate RoundTrips(lines: seq<string>, starting: nat, cs: seq<Column>)
    requires lines != [] && forall k :: 0 <= k < |lines| ==> starting <= |lines[k]|
  {
    && cs != []
    && (forall k :: 0 <= k < |cs| ==> |cs[k].values| == |lines| - 1)
    && forall r :: 0 <= r < |lines| - 1 ==> Join(RowOf(cs, r), ' ') == lines[r][starting..]
  }

  /** The cut loses nothing. */
  lemma {:induction false} ScanRoundTrip(lines: seq<string>, i: nat, starting: nat)
    requires lines != [] && starting <= i <= |lines[0]|
    requires forall k :: 0 <= k < |lines| ==> starting <= |lines[k]|
    requires Scan(lines, i, starting).Some?
    ensures RoundTrips(lines, starting, Scan(lines, i, starting).value)
    decreases |lines[0]| - i
  {
    var n := |lines|;
    if i == |lines[0]| {
      EndRoundTrips(lines, starting, OperatorFromStr(lines[n - 1][starting..]).value);
    } else if lines[0][i] != ' ' || SpaceColumn(lines[1..], i) == Some(false) {
      ScanSkip(lines, i, starting);
      ScanRoundTrip(lines, i + 1, starting);
    } else {
      CutStep(lines, i, starting);
      ScanRoundTrip(lines, i + 1, i + 1);
    }
  }

  /** A cut that the scan gets past leaves a scan after it, whose round trip gives this one's. */
  lemma CutStep(lines: seq<string>, i: nat, starting: nat)
    requires lines != [] && starting <= i < |lines[0]|
    requires forall k :: 0 <= k < |lines| ==> starting <= |lines[k]|
    requires lines[0][i] == ' ' && SpaceColumn(lines[1..], i) != Some(false)
    requires Scan(lines, i, starting).Some?
    ensures forall k :: 0 <= k < |lines| ==> i + 1 <= |lines[k]|
    ensures Scan(lines, i + 1, i + 1).Some?
    ensures RoundTrips(lines, i + 1, Scan(lines, i + 1, i + 1).value) ==>
      RoundTrips(lines, starting, Scan(lines, i, starting).value)
  {
    ScanCut(lines, i, starting);
    var operator := OperatorFromStr(lines[|lines| - 1][starting..starting + 1]);
    if RoundTrips(lines, i + 1, Scan(lines, i + 1, i + 1).value) {
      CutRoundTrips(lines, i, starting, operator.value, Scan(lines, i + 1, i + 1).value);
    }
  }

  /** The last problem, everything after the last cut, loses nothing. */
  lemma EndRoundTrips(lines: seq<string>, starting: nat, op: Operator)
    requires lines != [] && forall k :: 0 <= k < |lines| ==> starting <= |lines[k]|
    ensures RoundTrips(lines, starting, [Column(Tails(lines[..|lines| - 1], starting), op)])
  {
    var cs := [Column(Tails(lines[..|lines| - 1], starting), op)];
    forall r | 0 <= r < |lines| - 1 ensures Join(RowOf(cs, r), ' ') == lines[r][starting..] {
      assert RowOf(cs, r) == [lines[r][starting..]];
    }
  }

  /** A cut at a space all lines share keeps the round trip of the columns after it. */
  lemma CutRoundTrips(lines: seq<string>, i: nat, starting: nat, op: Operator, rest: seq<Column>)
    requires lines != [] && starting <= i < |lines[0]|
    requires forall k :: 0 <= k < |lines| ==> i < |lines[k]|
    requires lines[0][i] == ' ' && SpaceColumn(lines[1..], i) == Some(true)
    requires RoundTrips(lines, i + 1, rest)
    ensures RoundTrips(lines, starting, [Column(Pieces(lines[..|lines| - 1], starting, i), op)] + rest)
  {
    var n := |lines|;
    var c := Column(Pieces(lines[..n - 1], starting, i), op);
    forall r | 0 <= r < n - 1 ensures Join(RowOf([c] + rest, r), ' ') == lines[r][starting..] {
      if r > 0 {
        assert lines[r] == lines[1..][r - 1];
      }
      RowOfCons(c, rest, r);
      JoinCut(lines[r], starting, i, RowOf(rest, r));
    }
  }

  lemma RowOfCons(c: Column, rest: seq<Column>, r: nat)
    requires r < |c.values| && forall k :: 0 <= k < |rest| ==> r < |rest[k].values|
    ensures RowOf([c] + rest, r) == [c.values[r]] + RowOf(rest, r)
  {
  }

  /** A piece, the space of its cut and the pieces after it join back to the line's tail. */
  lemma JoinCut(line: string, starting: nat, i: nat, rest: seq<string>)
    requires starting <= i < |line| && line[i] == ' '
    requires rest != [] && Join(rest, ' ') == line[i + 1..]
    ensures Join([line[starting..i]] + rest, ' ') == line[starting..]
  {
    var parts := [line[starting..i]] + rest;
    assert parts[1..] == rest;
    assert line[starting..] == line[starting..i] + [' '] + line[i + 1..];
  }
}
