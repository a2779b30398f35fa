/**
 * The sanity check run over a table matrix after it is read: an all-zero
 * table is reported as a likely definition/image mismatch and marked
 * invalid, a larger table of one repeated value gets an integrity warning,
 * and the statistics record the extremes and the number of distinct values.
 */
module Validator {
  import opened Wrappers

  /** The two warnings the check can issue (the second names the repeated value). */
  datatype Warning = PossibleMismatch | VerifyIntegrity(value: real)

  /** `min`, `max` and `unique_count` of the statistics. */
  datatype Stats = Stats(min: real, max: real, uniqueCount: nat)

  /** The part of the report that is only present for a non-empty table. */
  datatype Details = Details(allZeros: bool, allSame: bool, stats: Stats)

  datatype Validation = Validation(valid: bool, warnings: seq<Warning>, details: Option<Details>)

  /** The number of cells: the sum of the row lengths. */
  function CellCount(data: seq<seq<real>>): nat {
    if data == [] then 0 else |data[0]| + CellCount(data[1..])
  }

  /** The cells in row-major order. */
  function Flatten(data: seq<seq<real>>): (flat: seq<real>)
    ensures |flat| == CellCount(data)
    ensures forall x :: x in flat <==> exists r :: 0 <= r < |data| && x in data[r]
    ensures data != [] && data[0] != [] ==> flat != [] && flat[0] == data[0][0]
  {
    if data == [] then []
    else
      var rest := Flatten(data[1..]);
      assert forall r :: 0 < r < |data| ==> data[r] == data[1..][r - 1];
      data[0] + rest
  }

  /** Row-major order: cell `(r, c)` follows every cell of the rows before `r`. */
  lemma {:induction false} FlattenAt(data: seq<seq<real>>, r: int, c: int)
    requires 0 <= r < |data| && 0 <= c < |data[r]|
    ensures CellCount(data[..r]) + c < |Flatten(data)|
    ensures Flatten(data)[CellCount(data[..r]) + c] == data[r][c]
  {
    if r > 0 {
      FlattenAt(data[1..], r - 1, c);
      assert data[1..][r - 1] == data[r];
      assert data[..r][1..] == data[1..][..r - 1];
    }
  }

  /** The distinct cell values. */
  function Values(s: seq<real>): set<real> {
    set x | x in s
  }

  /** The smallest value. */
  function MinOf(s: seq<real>): (m: real)
    requires s != []
    ensures m in s && forall x :: x in s ==> m <= x
  {
    if |s| == 1 then s[0]
    else
      var rest := MinOf(s[1..]);
      assert forall x :: x in s ==> x == s[0] || x in s[1..];
      if s[0] <= rest then s[0] else rest
  }

  /** The largest value. */
  function MaxOf(s: seq<real>): (m: real)
    requires s != []
    ensures m in s && forall x :: x in s ==> x <= m
  {
    if |s| == 1 then s[0]
    else
      var rest := MaxOf(s[1..]);
      assert forall x :: x in s ==> x == s[0] || x in s[1..];
      if rest <= s[0] then s[0] else rest
  }

  /** There is exactly one distinct value exactly when the sequence is non-empty and constant. */
  lemma SingleValueIff(s: seq<real>)
    ensures |Values(s)| == 1 <==> s != [] && forall x :: x in s ==> x == s[0]
  {
    if s != [] && forall x :: x in s ==> x == s[0] {
      assert Values(s) == {s[0]};
    }
    if |Values(s)| == 1 {
      assert s != [];
      var v := s[0];
      assert v in Values(s);
      assert |Values(s) - {v}| == 0;
      forall x | x in s
        ensures x == v
      {
        assert x in Values(s);
      }
      assert s != [] && s[0] in s;
    }
  }

  /** The number of distinct values never exceeds the number of cells. */
  lemma {:induction false} UniqueCountBound(s: seq<real>)
    ensures |Values(s)| <= |s|
  {
    if s != [] {
      UniqueCountBound(s[1..]);
      assert Values(s) == Values(s[1..]) + {s[0]};
    }
  }

  /** `_validate_table_data`. */
  function ValidateTableData(data: seq<seq<real>>): (v: Validation)
    ensures data == [] || data[0] == [] ==> v == Validation(true, [], None)
    ensures data != [] && data[0] != [] ==>
      var cells := Flatten(data);
      var zeros := forall x :: x in cells ==> x == 0.0;
      var same := forall x :: x in cells ==> x == data[0][0];
      && v.details.Some?
      && (v.valid <==> !zeros)
      && v.details.value.allZeros == zeros
      && v.details.value.allSame == same
      && (zeros ==> v.warnings == [PossibleMismatch])
      && (!zeros && same && CellCount(data) > 4 ==> v.warnings == [VerifyIntegrity(data[0][0])])
      && (!zeros && !(same && CellCount(data) > 4) ==> v.warnings == [])
      && v.details.value.stats.uniqueCount == |Values(cells)|
      && v.details.value.stats.min in cells && (forall x :: x in cells ==> v.details.value.stats.min <= x)
      && v.details.value.stats.max in cells && (forall x :: x in cells ==> x <= v.details.value.stats.max)
  {
    if data == [] || data[0] == [] then Validation(true, [], None)
    else
      var flat := Flatten(data);
      var allZeros := forall x :: x in flat ==> x == 0.0;
      var unique := Values(flat);
      var allSame := |unique| == 1;
      SingleValueIff(flat);
      var warnings :=
        if allZeros then [PossibleMismatch]
        else if allSame && |flat| > 4 then [VerifyIntegrity(flat[0])]
        else [];
      Validation(!allZeros, warnings, Some(Details(allZeros, allSame, Stats(MinOf(flat), MaxOf(flat), |unique|))))
  }

  /** In terms of the matrix: a table is valid exactly when it is empty or some cell is non-zero. */
  lemma ValidIff(data: seq<seq<real>>)
    ensures ValidateTableData(data).valid <==>
      data == [] || data[0] == [] || exists r, c :: 0 <= r < |data| && 0 <= c < |data[r]| && data[r][c] != 0.0
  {
    if data != [] && data[0] != [] {
      var cells := Flatten(data);
      if exists x :: x in cells && x != 0.0 {
        var x :| x in cells && x != 0.0;
        var r :| 0 <= r < |data| && x in data[r];
        var c :| 0 <= c < |data[r]| && data[r][c] == x;
      }
      if exists r, c :: 0 <= r < |data| && 0 <= c < |data[r]| && data[r][c] != 0.0 {
        var r, c :| 0 <= r < |data| && 0 <= c < |data[r]| && data[r][c] != 0.0;
        assert data[r][c] in data[r];
        assert data[r][c] in cells;
      }
    }
  }

  /** At most one warning is ever issued. */
  lemma AtMostOneWarning(data: seq<seq<real>>)
    ensures |ValidateTableData(data).warnings| <= 1
  {
  }

  /** A table read as all zeros: invalid, with the mismatch warning only. */
  lemma AllZeroExample()
    ensures ValidateTableData([[0.0, 0.0, 0.0], [0.0, 0.0, 0.0]]) ==
      Validation(false, [PossibleMismatch], Some(Details(true, true, Stats(0.0, 0.0, 1))))
  {
    FlattenTwoRows([0.0, 0.0, 0.0], [0.0, 0.0, 0.0]);
    assert Values([0.0, 0.0, 0.0, 0.0, 0.0, 0.0]) == {0.0};
  }

  /** A constant non-zero table of more than four cells is valid but draws the integrity warning. */
  lemma ConstantExample()
    ensures ValidateTableData([[5.0, 5.0, 5.0], [5.0, 5.0, 5.0]]).valid
    ensures ValidateTableData([[5.0, 5.0, 5.0], [5.0, 5.0, 5.0]]).warnings == [VerifyIntegrity(5.0)]
    ensures ValidateTableData([[5.0, 5.0], [5.0, 5.0]]).warnings == []
  {
    FlattenTwoRows([5.0, 5.0, 5.0], [5.0, 5.0, 5.0]);
    FlattenTwoRows([5.0, 5.0], [5.0, 5.0]);
  }

  /** A table of two rows flattens to the first row followed by the second. */
  lemma FlattenTwoRows(a: seq<real>, b: seq<real>)
    ensures Flatten([a, b]) == a + b
  {
    var data := [a, b];
    assert data[1..] == [b] && data[1..][1..] == [];
    assert Flatten([b]) == b + [];
  }
}
