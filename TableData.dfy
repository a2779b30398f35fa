/**
 * What `_read_table_data` builds from a table record: the matrix
 * dimensions, the row-major cell layout, the abort on a cell past the end
 * of the image, and each cell's value (decoded, converted by the equation,
 * or 0 when the read fails).
 */
module TableData {
  import opened Wrappers
  import opened Bytes
  import opened AddressSpace
  import opened FieldDecoder
  import opened Descriptors

  /**
   * The equation evaluator for a non-empty equation and a raw value, `None`
   * when the evaluation fails; what it computes is outside this model.
   */
  type Evaluator = (string, int) -> Option<real>

  /** `evaluate_math`: an empty equation gives the raw value, any other is handed to the evaluator. */
  function EvaluateMath(eval: Evaluator, equation: string, raw: int): (r: Option<real>)
    ensures equation == "" ==> r == Some(raw as real)
    ensures equation != "" ==> r == eval(equation, raw)
  {
    if equation == "" then Some(raw as real) else eval(equation, raw)
  }

  /** How an axis missing from the table reads: every lookup gets its default. */
  const MissingAxis := Axis(None, 1, "", None, 8, false, false, 1, 1, 2)

  function AxisOf(t: Table, id: string): Axis {
    if id in t.axes then t.axes[id] else MissingAxis
  }

  function Max(a: int, b: int): int {
    if a < b then b else a
  }

  /** The number of iterations of `range(n)`. */
  function RangeLength(n: int): nat {
    if n < 0 then 0 else n
  }

  /**
   * Rows and columns: the z axis's `row_count` and `col_count`, unless both
   * are at most 1, in which case the y and x axis counts (1 for a missing
   * axis, and at least 1 each).
   */
  function Dimensions(t: Table): (d: (int, int))
    ensures AxisOf(t, "z").rowCount <= 1 && AxisOf(t, "z").colCount <= 1 ==>
      && d.0 == (if "y" in t.axes && t.axes["y"].count > 1 then t.axes["y"].count else 1)
      && d.1 == (if "x" in t.axes && t.axes["x"].count > 1 then t.axes["x"].count else 1)
    ensures AxisOf(t, "z").rowCount > 1 || AxisOf(t, "z").colCount > 1 ==>
      d == (AxisOf(t, "z").rowCount, AxisOf(t, "z").colCount)
  {
    var z := AxisOf(t, "z");
    if z.rowCount <= 1 && z.colCount <= 1 then (Max(AxisOf(t, "y").count, 1), Max(AxisOf(t, "x").count, 1))
    else (z.rowCount, z.colCount)
  }

  /** `size_bits // 8`. */
  function SizeBytes(z: Axis): int {
    z.sizeBits / 8
  }

  /** The address of cell `(r, c)`: `base + (r * cols + c) * size_bytes`. */
  function CellAddress(base: int, cols: int, sizeBytes: int, r: int, c: int): int {
    base + (r * cols + c) * sizeBytes
  }

  /** The cell's resolved span does not end past the image (the only check that aborts the table). */
  predicate CellInBounds(sp: Space, image: seq<Byte>, z: Axis, base: int, cols: int, r: int, c: int) {
    Resolve(sp, CellAddress(base, cols, SizeBytes(z), r, c)) + SizeBytes(z) <= |image|
  }

  /** The z axis has a non-empty equation. */
  predicate HasEquation(z: Axis) {
    z.equation.Some? && z.equation.value != ""
  }

  /**
   * A cell's value: 0 when the read fails, otherwise the raw value, passed
   * through the equation when there is one, the raw value again when the
   * evaluation fails.
   */
  function CellValue(sp: Space, image: seq<Byte>, z: Axis, base: int, cols: int, eval: Evaluator, r: int, c: int): real {
    match ReadValue(sp, image, CellAddress(base, cols, SizeBytes(z), r, c), z.sizeBits, z.signed, z.lsbFirst)
    case None => 0.0
    case Some(raw) =>
      if HasEquation(z) then EvaluateMath(eval, z.equation.value, raw).GetOr(raw as real) else raw as real
  }

  /** Row `r` of the matrix. */
  function MatrixRow(sp: Space, image: seq<Byte>, z: Axis, base: int, cols: int, eval: Evaluator, r: int): seq<real> {
    seq(RangeLength(cols), c requires 0 <= c < RangeLength(cols) => CellValue(sp, image, z, base, cols, eval, r, c))
  }

  /** Some cell of the `rows × cols` grid fails the bounds check. */
  predicate SomeCellOutOfBounds(sp: Space, image: seq<Byte>, z: Axis, base: int, rows: int, cols: int) {
    exists r, c :: 0 <= r < rows && 0 <= c < cols && !CellInBounds(sp, image, z, base, cols, r, c)
  }

  /**
   * The table matrix, or `None` for a table of at most one row and at most
   * one column, a z axis without an address, or a cell past the end of the
   * image.
   */
  function TableMatrix(sp: Space, image: seq<Byte>, t: Table, eval: Evaluator): Option<seq<seq<real>>> {
    var (rows, cols) := Dimensions(t);
    var z := AxisOf(t, "z");
    if rows <= 1 && cols <= 1 then None
    else if z.address.None? then None
    else if SomeCellOutOfBounds(sp, image, z, z.address.value, rows, cols) then None
    else Some(seq(RangeLength(rows), r requires 0 <= r < RangeLength(rows) => MatrixRow(sp, image, z, z.address.value, cols, eval, r)))
  }

  /** A matrix, when there is one, has exactly `rows` rows of `cols` cells each. */
  lemma MatrixShape(sp: Space, image: seq<Byte>, t: Table, eval: Evaluator)
    requires TableMatrix(sp, image, t, eval).Some?
    ensures var (rows, cols) := Dimensions(t); var m := TableMatrix(sp, image, t, eval).value;
      && (rows > 1 || cols > 1)
      && |m| == RangeLength(rows)
      && forall r :: 0 <= r < |m| ==> |m[r]| == RangeLength(cols)
  {
  }

  /** When the matrix is refused, one of the three reasons holds, and each of them refuses it. */
  lemma MatrixNoneIff(sp: Space, image: seq<Byte>, t: Table, eval: Evaluator)
    ensures var (rows, cols) := Dimensions(t); var z := AxisOf(t, "z");
      TableMatrix(sp, image, t, eval).None? <==>
        (rows <= 1 && cols <= 1) || z.address.None? || SomeCellOutOfBounds(sp, image, z, z.address.value, rows, cols)
  {
  }

  /** A table without a z axis has no matrix. */
  lemma NoZAxisNoMatrix(sp: Space, image: seq<Byte>, t: Table, eval: Evaluator)
    requires "z" !in t.axes
    ensures TableMatrix(sp, image, t, eval).None?
  {
  }

  /**
   * Cells are laid out row-major: the next column is one field further on,
   * and the first cell of the next row follows the last cell of this one.
   */
  lemma RowMajorLayout(base: int, cols: int, sizeBytes: int, r: int, c: int)
    requires cols >= 1
    ensures CellAddress(base, cols, sizeBytes, r, c + 1) == CellAddress(base, cols, sizeBytes, r, c) + sizeBytes
    ensures CellAddress(base, cols, sizeBytes, r + 1, 0) == CellAddress(base, cols, sizeBytes, r, cols - 1) + sizeBytes
  {
    assert (r * cols + (c + 1)) * sizeBytes == (r * cols + c) * sizeBytes + sizeBytes;
    assert (r + 1) * cols == r * cols + (cols - 1) + 1;
    assert ((r + 1) * cols + 0) * sizeBytes == (r * cols + (cols - 1)) * sizeBytes + sizeBytes;
  }

  /**
   * Cells of a matrix over a supported width and non-negative addresses are
   * decoded: the raw value re-encodes to the image bytes at the cell, and the
   * cell is that value (or its conversion), never the substituted 0.
   */
  lemma CellDecoded(sp: Space, image: seq<Byte>, t: Table, eval: Evaluator, r: int, c: int)
    requires TableMatrix(sp, image, t, eval).Some?
    requires SupportedWidth(AxisOf(t, "z").sizeBits)
    requires 0 <= r < RangeLength(Dimensions(t).0) && 0 <= c < RangeLength(Dimensions(t).1)
    requires CellAddress(AxisOf(t, "z").address.value, Dimensions(t).1, SizeBytes(AxisOf(t, "z")), r, c) >= 0
    ensures var z := AxisOf(t, "z");
      var address := CellAddress(z.address.value, Dimensions(t).1, SizeBytes(z), r, c);
      var off, n := Resolve(sp, address), SizeBytes(z);
      var raw := ReadValue(sp, image, address, z.sizeBits, z.signed, z.lsbFirst);
      && raw.Some?
      && Encode(raw.value, n, z.signed, z.lsbFirst) == image[off..off + n]
      && TableMatrix(sp, image, t, eval).value[r][c] ==
           (if HasEquation(z) then EvaluateMath(eval, z.equation.value, raw.value).GetOr(raw.value as real) else raw.value as real)
  {
    MatrixCell(sp, image, t, eval, r, c);
    var z := AxisOf(t, "z");
    CellDecodedAt(sp, image, z, z.address.value, Dimensions(t).1, eval, r, c);
  }

  /** Each cell of a matrix passed the bounds check and holds its cell value. */
  lemma MatrixCell(sp: Space, image: seq<Byte>, t: Table, eval: Evaluator, r: int, c: int)
    requires TableMatrix(sp, image, t, eval).Some?
    requires 0 <= r < RangeLength(Dimensions(t).0) && 0 <= c < RangeLength(Dimensions(t).1)
    ensures var z := AxisOf(t, "z");
      && z.address.Some?
      && CellInBounds(sp, image, z, z.address.value, Dimensions(t).1, r, c)
      && |TableMatrix(sp, image, t, eval).value| == RangeLength(Dimensions(t).0)
      && |TableMatrix(sp, image, t, eval).value[r]| == RangeLength(Dimensions(t).1)
      && TableMatrix(sp, image, t, eval).value[r][c] == CellValue(sp, image, z, z.address.value, Dimensions(t).1, eval, r, c)
  {
    var z := AxisOf(t, "z");
    var (rows, cols) := Dimensions(t);
    assert !SomeCellOutOfBounds(sp, image, z, z.address.value, rows, cols);
    var m := TableMatrix(sp, image, t, eval).value;
    assert m[r] == MatrixRow(sp, image, z, z.address.value, cols, eval, r);
  }

  /** One cell in bounds, over a supported width and at a non-negative address, is decoded. */
  lemma CellDecodedAt(sp: Space, image: seq<Byte>, z: Axis, base: int, cols: int, eval: Evaluator, r: int, c: int)
    requires CellInBounds(sp, image, z, base, cols, r, c) && SupportedWidth(z.sizeBits)
    requires CellAddress(base, cols, SizeBytes(z), r, c) >= 0
    ensures var address := CellAddress(base, cols, SizeBytes(z), r, c);
      var off, n := Resolve(sp, address), SizeBytes(z);
      var raw := ReadValue(sp, image, address, z.sizeBits, z.signed, z.lsbFirst);
      && raw.Some?
      && Encode(raw.value, n, z.signed, z.lsbFirst) == image[off..off + n]
      && CellValue(sp, image, z, base, cols, eval, r, c) ==
           (if HasEquation(z) then EvaluateMath(eval, z.equation.value, raw.value).GetOr(raw.value as real) else raw.value as real)
  {
    var address := CellAddress(base, cols, SizeBytes(z), r, c);
    var off := Resolve(sp, address);
    assert 0 <= off && off + z.sizeBits / 8 <= |image|;
    assert ReadValue(sp, image, address, z.sizeBits, z.signed, z.lsbFirst).Some?;
  }

  /** Over an unsupported width every cell of a matrix is the substituted 0. */
  lemma UnsupportedWidthGivesZeros(sp: Space, image: seq<Byte>, t: Table, eval: Evaluator)
    requires TableMatrix(sp, image, t, eval).Some?
    requires !SupportedWidth(AxisOf(t, "z").sizeBits)
    ensures var m := TableMatrix(sp, image, t, eval).value;
      forall r, c :: 0 <= r < |m| && 0 <= c < |m[r]| ==> m[r][c] == 0.0
  {
    var m := TableMatrix(sp, image, t, eval).value;
    MatrixShape(sp, image, t, eval);
    forall r, c | 0 <= r < |m| && 0 <= c < |m[r]|
      ensures m[r][c] == 0.0
    {
      MatrixCell(sp, image, t, eval, r, c);
    }
  }

  /**
   * A z axis of at most one row and at most one column (or no z axis) falls
   * back to `max(count, 1)` of the y and x axes, whose count defaults to 1.
   */
  lemma DimensionsFallback(t: Table)
    requires AxisOf(t, "z").rowCount <= 1 && AxisOf(t, "z").colCount <= 1
    ensures Dimensions(t) == (Max(AxisOf(t, "y").count, 1), Max(AxisOf(t, "x").count, 1))
    ensures Dimensions(t).0 >= 1 && Dimensions(t).1 >= 1
  {
  }

  /** The z axis of a 2×2 table of unsigned bytes at address 0. */
  const ExampleZ := Axis(Some(0), 4, "", None, 8, false, false, 2, 2, 2)

  /** Cell `(r, c)` of that table over the image `1 2 3 4` is the byte at `2 * r + c`. */
  lemma ExampleCell(eval: Evaluator, r: int, c: int)
    requires 0 <= r < 2 && 0 <= c < 2
    ensures CellInBounds(NoOffset, [1, 2, 3, 4], ExampleZ, 0, 2, r, c)
    ensures CellValue(NoOffset, [1, 2, 3, 4], ExampleZ, 0, 2, eval, r, c) == (2 * r + c + 1) as real
  {
    var image: seq<Byte> := [1, 2, 3, 4];
    var a := 2 * r + c;
    assert CellAddress(0, 2, 1, r, c) == a;
    ModulusSizes();
    var one := image[a..a + 1];
    assert one[..0] == [];
    assert Decode(one, false, false) == image[a];
  }

  /**
   * The 2×2 table over the image `1 2 3 4` reads the four bytes in row-major
   * order, while a 1×5 table over the same image is refused for want of a
   * fifth byte.
   */
  lemma SmallTableExample(eval: Evaluator)
    ensures TableMatrix(NoOffset, [1, 2, 3, 4], Table("t", "c", map["z" := ExampleZ], 2), eval) == Some([[1.0, 2.0], [3.0, 4.0]])
    ensures var wide := Axis(Some(0), 5, "", None, 8, false, false, 1, 5, 2);
      TableMatrix(NoOffset, [1, 2, 3, 4], Table("t", "c", map["z" := wide], 2), eval).None?
  {
    var image: seq<Byte> := [1, 2, 3, 4];
    var t := Table("t", "c", map["z" := ExampleZ], 2);
    assert AxisOf(t, "z") == ExampleZ && Dimensions(t) == (2, 2);
    forall r, c | 0 <= r < 2 && 0 <= c < 2
      ensures CellInBounds(NoOffset, image, ExampleZ, 0, 2, r, c)
    {
      ExampleCell(eval, r, c);
    }
    assert TableMatrix(NoOffset, image, t, eval).Some?;
    var m := TableMatrix(NoOffset, image, t, eval).value;
    forall r, c | 0 <= r < 2 && 0 <= c < 2
      ensures m[r][c] == (2 * r + c + 1) as real
    {
      MatrixCell(NoOffset, image, t, eval, r, c);
      ExampleCell(eval, r, c);
    }
    MatrixShape(NoOffset, image, t, eval);
    assert m[0] == [1.0, 2.0];
    assert m[1] == [3.0, 4.0];
    assert m == [[1.0, 2.0], [3.0, 4.0]];
    WideTableRefused(eval);
  }

  /** A 1×5 table of bytes over a four-byte image fails the bounds check at its fifth cell. */
  lemma WideTableRefused(eval: Evaluator)
    ensures var wide := Axis(Some(0), 5, "", None, 8, false, false, 1, 5, 2);
      TableMatrix(NoOffset, [1, 2, 3, 4], Table("t", "c", map["z" := wide], 2), eval).None?
  {
    var image: seq<Byte> := [1, 2, 3, 4];
    var wide := Axis(Some(0), 5, "", None, 8, false, false, 1, 5, 2);
    var t := Table("t", "c", map["z" := wide], 2);
    assert AxisOf(t, "z") == wide && Dimensions(t) == (1, 5);
    assert !CellInBounds(NoOffset, image, wide, 0, 5, 0, 4);
    MatrixNoneIff(NoOffset, image, t, eval);
  }
}
