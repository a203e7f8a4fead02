/** The row extraction in the `complete` callback of `fetchCSV`
    (components/fetchCSV.js). The input is the rows the CSV tokeniser
    produced, each a sequence of field strings. Row 0 is dropped whatever it
    holds; a later row contributes its first two fields, read with
    `parseFloat`, when neither reads as NaN, and then both values are
    appended together. */
module FetchCsv {
  import opened JsNumber
  import opened Seqs

  /** The `{ time, amplitude }` object `fetchCSV` resolves with. */
  datatype Series = Series(time: seq<Number>, amplitude: seq<Number>)

  /** `parseFloat(row[i])`. A missing field is `undefined`, whose string
      form `"undefined"` reads as NaN. */
  function Field(row: seq<string>, i: nat): Number {
    if i < |row| then ParseFloat(row[i]) else NaN
  }

  /** `[parseFloat(row[0]), parseFloat(row[1])]` for one row. */
  function ReadRow(row: seq<string>): (Number, Number) {
    (Field(row, 0), Field(row, 1))
  }

  /** The guard `!isNaN(timeValue) && !isNaN(amplitudeValue)`. */
  predicate Contributes(pair: (Number, Number)) {
    !pair.0.NaN? && !pair.1.NaN?
  }

  /** `result.data.slice(1)`: every row but the first. */
  function DataRows(rows: seq<seq<string>>): seq<seq<string>> {
    if |rows| == 0 then [] else rows[1..]
  }

  /** The two values each data row reads as, in row order. */
  function ReadRows(data: seq<seq<string>>): (ps: seq<(Number, Number)>)
    ensures |ps| == |data|
  {
    MapSeq(ReadRow, data)
  }

  /** Pair `i` is what row `i` reads as. */
  lemma ReadRowsSpec(data: seq<seq<string>>)
    ensures forall i :: 0 <= i < |data| ==> ReadRows(data)[i] == ReadRow(data[i])
  {
    MapSeqSpec(ReadRow, data);
  }

  /** The positions of the contributing rows, in increasing order. */
  function Kept(ps: seq<(Number, Number)>): (ks: seq<nat>)
    ensures |ks| <= |ps|
    ensures forall k :: 0 <= k < |ks| ==> ks[k] < |ps|
  {
    if |ps| == 0 then []
    else
      var last := |ps| - 1;
      if Contributes(ps[last]) then Kept(ps[..last]) + [last] else Kept(ps[..last])
  }

  /** A position is listed exactly when its row contributes, and the list
      increases. */
  lemma {:induction false} KeptSpec(ps: seq<(Number, Number)>)
    ensures forall k :: 0 <= k < |Kept(ps)| ==> Contributes(ps[Kept(ps)[k]])
    ensures forall k, l :: 0 <= k < l < |Kept(ps)| ==> Kept(ps)[k] < Kept(ps)[l]
    ensures forall i :: 0 <= i < |ps| && Contributes(ps[i]) ==> i in Kept(ps)
  {
    if |ps| > 0 {
      var last := |ps| - 1;
      var front := Kept(ps[..last]);
      KeptSpec(ps[..last]);
      assert forall k :: 0 <= k < |front| ==> ps[..last][front[k]] == ps[front[k]];
      assert forall i :: 0 <= i < last ==> ps[..last][i] == ps[i];
    }
  }

  /** The `forEach` over the rows: each contributing row pushes its time
      value and its amplitude value, so both columns grow together. */
  function Collect(ps: seq<(Number, Number)>): (s: Series)
    ensures |s.time| == |s.amplitude| == |Kept(ps)|
  {
    if |ps| == 0 then Series([], [])
    else
      var last := |ps| - 1;
      var front := Collect(ps[..last]);
      if Contributes(ps[last]) then Series(front.time + [ps[last].0], front.amplitude + [ps[last].1])
      else front
  }

  /** Entry `k` of both columns comes from the `k`-th contributing row. */
  lemma {:induction false} CollectSpec(ps: seq<(Number, Number)>)
    ensures forall k :: 0 <= k < |Kept(ps)| ==>
      Collect(ps).time[k] == ps[Kept(ps)[k]].0 && Collect(ps).amplitude[k] == ps[Kept(ps)[k]].1
  {
    if |ps| > 0 {
      var last := |ps| - 1;
      CollectSpec(ps[..last]);
      var front := Kept(ps[..last]);
      assert forall k :: 0 <= k < |front| ==> ps[..last][front[k]] == ps[front[k]];
    }
  }

  /** The body of the `complete` callback: the series built from every row
      after the first. Both columns have the same length, at most the number
      of data rows, and entry `k` of each is the time or amplitude value of
      the `k`-th data row whose two values are both numbers. */
  function ExtractSeries(rows: seq<seq<string>>): (s: Series)
    ensures |s.time| == |s.amplitude|
    ensures |s.time| <= if |rows| == 0 then 0 else |rows| - 1
    ensures forall k :: 0 <= k < |s.time| ==> !s.time[k].NaN? && !s.amplitude[k].NaN?
    ensures var data := DataRows(rows); var ks := Kept(ReadRows(data));
      && |s.time| == |ks|
      && forall k :: 0 <= k < |ks| ==>
        s.time[k] == Field(data[ks[k]], 0) && s.amplitude[k] == Field(data[ks[k]], 1)
  {
    var data := DataRows(rows);
    ReadRowsSpec(data);
    KeptSpec(ReadRows(data));
    CollectSpec(ReadRows(data));
    Collect(ReadRows(data))
  }

  /** Row 0 never contributes, whatever it holds. */
  lemma HeaderAlwaysDiscarded(rows: seq<seq<string>>, header: seq<string>)
    requires |rows| > 0
    ensures ExtractSeries([header] + rows[1..]) == ExtractSeries(rows)
  {
    assert ([header] + rows[1..])[1..] == rows[1..];
  }

  /** A row with fewer than two fields never contributes. */
  lemma ShortRowDropped(row: seq<string>)
    requires |row| < 2
    ensures !Contributes(ReadRow(row))
  {
  }

  /** Appending a row appends its pair exactly when it contributes, and
      leaves the earlier entries alone. */
  lemma CollectAppend(ps: seq<(Number, Number)>, p: (Number, Number))
    ensures Collect(ps + [p]) ==
      if Contributes(p) then Series(Collect(ps).time + [p.0], Collect(ps).amplitude + [p.1])
      else Collect(ps)
  {
    assert (ps + [p])[..|ps|] == ps;
  }

  /** A row of two natural-number numerals reads as the two numbers. */
  lemma ReadNumeralRow(a: nat, b: nat)
    ensures ReadRow([ShowNat(a), ShowNat(b)]) == (Finite(a as real), Finite(b as real))
  {
    ParseFloatShowNat(a);
    ParseFloatShowNat(b);
  }

  /** The four data rows of the example document, read. */
  lemma ExamplePairs()
    ensures ReadRows([["1", "2"], ["x", "3"], ["4", "y"], ["5", "6"]])
      == [(Finite(1.0), Finite(2.0)), (NaN, Finite(3.0)), (Finite(4.0), NaN), (Finite(5.0), Finite(6.0))]
  {
    MapSeqFour(ReadRow, ["1", "2"], ["x", "3"], ["4", "y"], ["5", "6"]);
    ExampleRow12();
    ExampleRowX3();
    ExampleRow4Y();
    ExampleRow56();
  }

  /** The example rows one by one: numerals read as numbers, a letter as NaN. */
  lemma ExampleRow12()
    ensures ReadRow(["1", "2"]) == (Finite(1.0), Finite(2.0))
  {
    ParseFloatShowNat(1);
    ParseFloatShowNat(2);
  }

  lemma ExampleRowX3()
    ensures ReadRow(["x", "3"]) == (NaN, Finite(3.0))
  {
    ParseFloatLetterStart("x");
    ParseFloatShowNat(3);
  }

  lemma ExampleRow4Y()
    ensures ReadRow(["4", "y"]) == (Finite(4.0), NaN)
  {
    ParseFloatShowNat(4);
    ParseFloatLetterStart("y");
  }

  lemma ExampleRow56()
    ensures ReadRow(["5", "6"]) == (Finite(5.0), Finite(6.0))
  {
    ParseFloatShowNat(5);
    ParseFloatShowNat(6);
  }

  /** Of the four example pairs, the first and the last are kept. */
  lemma ExampleCollect()
    ensures Collect([(Finite(1.0), Finite(2.0)), (NaN, Finite(3.0)), (Finite(4.0), NaN), (Finite(5.0), Finite(6.0))])
      == Series([Finite(1.0), Finite(5.0)], [Finite(2.0), Finite(6.0)])
  {
    var p1, p2, p3, p4 := (Finite(1.0), Finite(2.0)), (NaN, Finite(3.0)), (Finite(4.0), NaN), (Finite(5.0), Finite(6.0));
    var one := Series([Finite(1.0)], [Finite(2.0)]);
    assert Collect([p1]) == one by {
      CollectAppend([], p1);
      assert [p1] == [] + [p1];
    }
    assert Collect([p1, p2]) == one by {
      CollectAppend([p1], p2);
      assert [p1, p2] == [p1] + [p2];
    }
    assert Collect([p1, p2, p3]) == one by {
      CollectAppend([p1, p2], p3);
      assert [p1, p2, p3] == [p1, p2] + [p3];
    }
    CollectAppend([p1, p2, p3], p4);
    assert [p1, p2, p3, p4] == [p1, p2, p3] + [p4];
  }

  /** The rows `t,a` / `1,2` / `x,3` / `4,y` / `5,6` give `time = [1, 5]`
      and `amplitude = [2, 6]`. */
  lemma ExampleDocument()
    ensures ExtractSeries([["t", "a"], ["1", "2"], ["x", "3"], ["4", "y"], ["5", "6"]])
      == Series([Finite(1.0), Finite(5.0)], [Finite(2.0), Finite(6.0)])
  {
    var rows := [["t", "a"], ["1", "2"], ["x", "3"], ["4", "y"], ["5", "6"]];
    assert DataRows(rows) == [["1", "2"], ["x", "3"], ["4", "y"], ["5", "6"]];
    ExamplePairs();
    ExampleCollect();
  }
}
