/** The binary payload of a Spice3 raw file: three decoders, one matrix, and its encoding. */
module RawPayload {
  import opened Prelude
  import opened Chain

  /** The eight bytes of one double. */
  type Scalar = Bytes

  /** One scalar when the plot is real, real part and imaginary part when it is complex. */
  type Cell = seq<Scalar>

  type Row = seq<Cell>

  datatype Refusal = RepeatedName | BadLength | NonFinite

  // Cutting a sequence into equal pieces, and putting the pieces together.

  function Chunks<T>(flat: seq<T>, n: nat, w: nat): (chunks: seq<seq<T>>)
    requires |flat| == n * w
    ensures |chunks| == n
    decreases n
  {
    if n == 0 then [] else
      LastChunk(n, w);
      Chunks(flat[..(n - 1) * w], n - 1, w) + [flat[(n - 1) * w..]]
  }

  lemma LastChunk(n: nat, w: nat)
    requires n > 0
    ensures 0 <= (n - 1) * w && (n - 1) * w + w == n * w
  {
  }

  function Flatten<T>(chunks: seq<seq<T>>): seq<T> {
    if chunks == [] then [] else Flatten(chunks[..|chunks| - 1]) + chunks[|chunks| - 1]
  }

  ghost predicate Uniform<T>(chunks: seq<seq<T>>, w: nat) {
    forall i :: 0 <= i < |chunks| ==> |chunks[i]| == w
  }

  lemma {:induction false} ChunkIsSlice<T>(flat: seq<T>, n: nat, w: nat, i: nat)
    requires |flat| == n * w && i < n
    ensures 0 <= i * w && i * w + w == (i + 1) * w <= |flat|
    ensures Chunks(flat, n, w)[i] == flat[i * w..i * w + w]
    decreases n
  {
    LastChunk(n, w);
    if i < n - 1 {
      ChunkIsSlice(flat[..(n - 1) * w], n - 1, w, i);
    }
  }

  lemma {:induction false} FlattenChunks<T>(flat: seq<T>, n: nat, w: nat)
    requires |flat| == n * w
    ensures Flatten(Chunks(flat, n, w)) == flat && Uniform(Chunks(flat, n, w), w)
    decreases n
  {
    if n > 0 {
      LastChunk(n, w);
      var front := flat[..(n - 1) * w];
      FlattenChunks(front, n - 1, w);
      assert Chunks(flat, n, w)[..n - 1] == Chunks(front, n - 1, w);
      assert flat == front + flat[(n - 1) * w..];
    }
  }

  lemma OneMoreChunk<T>(front: seq<seq<T>>, last: seq<T>, flat: seq<T>, w: nat)
    requires |last| == w && |flat| == |front| * w && Chunks(flat, |front|, w) == front
    ensures |flat + last| == (|front| + 1) * w && Chunks(flat + last, |front| + 1, w) == front + [last]
  {
    LastChunk(|front| + 1, w);
    assert (flat + last)[..|flat|] == flat && (flat + last)[|flat|..] == last;
  }

  lemma {:induction false} ChunksFlatten<T>(chunks: seq<seq<T>>, w: nat)
    requires Uniform(chunks, w)
    ensures |Flatten(chunks)| == |chunks| * w && Chunks(Flatten(chunks), |chunks|, w) == chunks
  {
    hide Chunks;
    if chunks != [] {
      var front, last := chunks[..|chunks| - 1], chunks[|chunks| - 1];
      ChunksFlatten(front, w);
      OneMoreChunk(front, last, Flatten(front), w);
      assert chunks == front + [last];
    } else {
      NoChunks<T>(w);
    }
  }

  lemma NoChunks<T>(w: nat)
    ensures Chunks<T>([], 0, w) == []
  {
  }

  // The matrix a payload holds.

  datatype Shape = Shape(points: nat, variables: nat, complex: bool) {
    function Width(): nat { if complex then 2 else 1 }
    function Cells(): nat { points * variables }
    function Scalars(): nat { Cells() * Width() }
  }

  predicate LengthFits(payload: Bytes, s: Shape) {
    |payload| == s.Scalars() * 8
  }

  function ScalarsOf(payload: Bytes, s: Shape): seq<Scalar>
    requires LengthFits(payload, s)
  {
    Chunks(payload, s.Scalars(), 8)
  }

  /** Row-major: bytes make scalars, scalars make cells, cells make rows. */
  function Matrix(payload: Bytes, s: Shape): (rows: seq<Row>)
    requires LengthFits(payload, s)
    ensures |rows| == s.points
  {
    Chunks(Chunks(ScalarsOf(payload, s), s.Cells(), s.Width()), s.points, s.variables)
  }

  function Encode(rows: seq<Row>): Bytes {
    Flatten(Flatten(Flatten(rows)))
  }

  ghost predicate IsMatrix(rows: seq<Row>, s: Shape) {
    && |rows| == s.points && Uniform(rows, s.variables)
    && Uniform(Flatten(rows), s.Width())
    && Uniform(Flatten(Flatten(rows)), 8)
  }

  /** Encoding then decoding is the identity on matrices of any size, real or complex. */
  lemma DecodeEncode(rows: seq<Row>, s: Shape)
    requires IsMatrix(rows, s)
    ensures LengthFits(Encode(rows), s) && Matrix(Encode(rows), s) == rows
  {
    hide *;
    ChunksFlatten(rows, s.variables) by { assert IsMatrix(rows, s); MatrixMeans(rows, s); }
    MatrixMeans(rows, s);
    ChunksFlatten(Flatten(rows), s.Width());
    ChunksFlatten(Flatten(Flatten(rows)), 8);
    Unfold(Encode(rows), rows, s);
  }

  lemma MatrixMeans(rows: seq<Row>, s: Shape)
    requires IsMatrix(rows, s)
    ensures |rows| == s.points && Uniform(rows, s.variables)
    ensures Uniform(Flatten(rows), s.Width())
    ensures Uniform(Flatten(Flatten(rows)), 8)
  {
  }

  lemma Unfold(payload: Bytes, rows: seq<Row>, s: Shape)
    requires payload == Encode(rows) && |rows| == s.points
    requires |Flatten(rows)| == |rows| * s.variables
    requires |Flatten(Flatten(rows))| == |Flatten(rows)| * s.Width()
    requires |Flatten(Flatten(Flatten(rows)))| == |Flatten(Flatten(rows))| * 8
    requires Chunks(Flatten(rows), |rows|, s.variables) == rows
    requires Chunks(Flatten(Flatten(rows)), |Flatten(rows)|, s.Width()) == Flatten(rows)
    requires Chunks(Flatten(Flatten(Flatten(rows))), |Flatten(Flatten(rows))|, 8) == Flatten(Flatten(rows))
    ensures LengthFits(payload, s) && Matrix(payload, s) == rows
  {
    hide Chunks, Flatten;
  }

  /** Decoding then encoding gives the payload back. */
  lemma EncodeDecode(payload: Bytes, s: Shape)
    requires LengthFits(payload, s)
    ensures IsMatrix(Matrix(payload, s), s) && Encode(Matrix(payload, s)) == payload
  {
    hide Chunks, Flatten, Uniform;
    var scalars := ScalarsOf(payload, s);
    var cells := Chunks(scalars, s.Cells(), s.Width());
    FlattenChunks(payload, s.Scalars(), 8);
    FlattenChunks(scalars, s.Cells(), s.Width());
    FlattenChunks(cells, s.points, s.variables);
  }

  /** Where the scalars of point i, variable j start. */
  function Start(s: Shape, i: nat, j: nat): nat {
    (i * s.variables + j) * s.Width()
  }

  lemma StartSteps(s: Shape, i: nat, j: nat)
    ensures Start(s, 0, 0) == 0
    ensures Start(s, i, j + 1) == Start(s, i, j) + s.Width()
    ensures Start(s, i + 1, 0) == Start(s, i, s.variables)
    ensures Start(s, i, j) == Start(s, i, 0) + Start(s, 0, j)
    ensures Start(s, i, 0) == i * (s.variables * s.Width())
  {
    assert (i + 1) * s.variables == i * s.variables + s.variables;
  }

  /** Point i of variable j is the `width` scalars from its start. */
  lemma CellHere(payload: Bytes, s: Shape, i: nat, j: nat)
    requires LengthFits(payload, s) && i < s.points && j < s.variables
    ensures |Matrix(payload, s)[i]| == s.variables
    ensures Start(s, i, j) + s.Width() <= |ScalarsOf(payload, s)|
    ensures Matrix(payload, s)[i][j] == ScalarsOf(payload, s)[Start(s, i, j)..Start(s, i, j) + s.Width()]
  {
    hide Chunks;
    var scalars := ScalarsOf(payload, s);
    var cells := Chunks(scalars, s.Cells(), s.Width());
    ChunkIsSlice(cells, s.points, s.variables, i);
    ChunkIsSlice(scalars, s.Cells(), s.Width(), i * s.variables + j);
  }

  /** Cell j of point i is the eight or sixteen bytes at its place in the payload. */
  lemma CellBytes(payload: Bytes, s: Shape, i: nat, j: nat)
    requires LengthFits(payload, s) && i < s.points && j < s.variables
    ensures var at, width := (i * s.variables + j) * (if s.complex then 2 else 1) * 8, if s.complex then 2 else 1;
            && 0 <= at && at + 8 * width <= |payload|
            && |Matrix(payload, s)[i]| == s.variables && |Matrix(payload, s)[i][j]| == width
            && Matrix(payload, s)[i][j][0] == payload[at..at + 8]
            && (s.complex ==> Matrix(payload, s)[i][j][1] == payload[at + 8..at + 16])
  {
    CellHere(payload, s, i, j);
    ScalarsCount(payload, s);
    hide Matrix, Chunks, Start;
    var first := Start(s, i, j);
    StartIs(s, i, j);
    ScalarHere(payload, s, first);
    if s.complex {
      ScalarHere(payload, s, first + 1);
    }
  }

  lemma StartIs(s: Shape, i: nat, j: nat)
    ensures Start(s, i, j) == (i * s.variables + j) * (if s.complex then 2 else 1)
  {
  }

  lemma ScalarsCount(payload: Bytes, s: Shape)
    requires LengthFits(payload, s)
    ensures |ScalarsOf(payload, s)| == s.Scalars()
  {
  }

  lemma ScalarHere(payload: Bytes, s: Shape, k: nat)
    requires LengthFits(payload, s) && k < s.Scalars()
    ensures |ScalarsOf(payload, s)| == s.Scalars() && k * 8 + 8 <= |payload|
    ensures ScalarsOf(payload, s)[k] == payload[k * 8..k * 8 + 8]
  {
    ChunkIsSlice(payload, s.Scalars(), 8, k);
  }

  // The three decoders.

  /** Exponent bits not all ones. */
  predicate IsFinite(x: Scalar) {
    |x| == 8 ==> !((x[7] & 0x7f) == 0x7f && (x[6] & 0xf0) == 0xf0)
  }

  /** The eleven exponent bits of a little-endian double. */
  function Exponent(x: Scalar): int
    requires |x| == 8
  {
    (x[7] as int % 128) * 16 + x[6] as int / 16
  }

  lemma LowSevenBits(b: bv8)
    ensures (b & 0x7f) == 0x7f <==> b as int % 128 == 127
  {
  }

  lemma HighFourBits(b: bv8)
    ensures (b & 0xf0) == 0xf0 <==> b as int / 16 == 15
  {
  }

  /** Infinities and NaNs are the doubles of the largest exponent. */
  lemma FiniteIsExponent(x: Scalar)
    requires |x| == 8
    ensures IsFinite(x) <==> Exponent(x) != 2047
  {
    LowSevenBits(x[7]);
    HighFourBits(x[6]);
  }

  predicate AllFinite(scalars: seq<Scalar>) {
    forall x :: x in scalars ==> IsFinite(x)
  }

  /** The columns under their names are the transpose of the rows. */
  ghost predicate Transposed(columns: map<string, seq<Cell>>, names: seq<string>, rows: seq<Row>) {
    && columns.Keys == Elements(names)
    && (forall j :: 0 <= j < |names| ==> ColumnIs(columns[names[j]], rows, j, |rows|))
  }

  /** `column` holds entry j of the first n rows. */
  ghost predicate ColumnIs(column: seq<Cell>, rows: seq<Row>, j: nat, n: nat) {
    && |column| == n <= |rows|
    && (forall i :: 0 <= i < n ==> j < |rows[i]| && column[i] == rows[i][j])
  }

  lemma ColumnGrows(column: seq<Cell>, rows: seq<Row>, j: nat, n: nat)
    requires ColumnIs(column, rows, j, n) && n < |rows| && j < |rows[n]|
    ensures ColumnIs(column + [rows[n][j]], rows, j, n + 1)
  {
  }

  /** What a decoder that also checks names and finiteness must answer. */
  ghost predicate DecodesColumns(r: Result<map<string, seq<Cell>>, Refusal>, payload: Bytes, names: seq<string>, s: Shape) {
    match r
    case Err(RepeatedName) => !Distinct(names)
    case Err(BadLength) => Distinct(names) && !LengthFits(payload, s)
    case Err(NonFinite) => Distinct(names) && LengthFits(payload, s) && !AllFinite(ScalarsOf(payload, s))
    case Ok(columns) =>
      && Distinct(names) && LengthFits(payload, s) && AllFinite(ScalarsOf(payload, s))
      && Transposed(columns, names, Matrix(payload, s))
  }

  /** The walk: one running position, points outside, names inside. */
  method WalkColumns(payload: Bytes, names: seq<string>, points: nat, complex: bool)
    returns (r: Result<map<string, seq<Cell>>, Refusal>)
    ensures DecodesColumns(r, payload, names, Shape(points, |names|, complex))
  {
    hide AllFinite, Transposed, Distinct, Matrix, ScalarsOf, Walked;
    if !Distinct(names) {
      return Err(RepeatedName);
    }
    var s := Shape(points, |names|, complex);
    if |payload| != s.Scalars() * 8 {
      return Err(BadLength);
    }
    var scalars := ScalarsOf(payload, s);
    if !AllFinite(scalars) {
      return Err(NonFinite);
    }
    ghost var rows := Matrix(payload, s);
    var columns: map<string, seq<Cell>> := map name | name in Elements(names) :: [];
    WalkStart(columns, names, rows);
    var position := 0;
    StartSteps(s, 0, 0);
    for i := 0 to points
      invariant position == Start(s, i, 0)
      invariant Walked(columns, names, rows, i, 0)
    {
      hide *;
      for j := 0 to |names|
        invariant position == Start(s, i, j)
        invariant Walked(columns, names, rows, i, j)
      {
        CellHere(payload, s, i, j);
        WidthOf(s);
        StartSteps(s, i, j);
        CellIs(scalars, position, s.Width(), rows[i][j]);
        WalkStep(columns, names, rows, i, j);
        if complex {
          columns := columns[names[j] := columns[names[j]] + [[scalars[position], scalars[position + 1]]]];
          position := position + 2;
        } else {
          columns := columns[names[j] := columns[names[j]] + [[scalars[position]]]];
          position := position + 1;
        }
      }
      StartSteps(s, i, 0);
      WalkedRow(columns, names, rows, i);
    }
    WalkedAll(columns, names, rows);
    r := Ok(columns);
  }

  /** The first i rows are in every column, and row i in the first j. */
  ghost predicate Walked(columns: map<string, seq<Cell>>, names: seq<string>, rows: seq<Row>, i: nat, j: nat) {
    && columns.Keys == Elements(names)
    && (forall k :: 0 <= k < |names| ==> ColumnIs(columns[names[k]], rows, k, if k < j then i + 1 else i))
  }

  lemma WalkStart(columns: map<string, seq<Cell>>, names: seq<string>, rows: seq<Row>)
    requires columns == map name | name in Elements(names) :: []
    ensures Walked(columns, names, rows, 0, 0)
  {
    assert forall k :: 0 <= k < |names| ==> names[k] in Elements(names);
  }

  lemma WalkedRow(columns: map<string, seq<Cell>>, names: seq<string>, rows: seq<Row>, i: nat)
    requires Walked(columns, names, rows, i, |names|)
    ensures Walked(columns, names, rows, i + 1, 0)
  {
  }

  lemma WalkedAll(columns: map<string, seq<Cell>>, names: seq<string>, rows: seq<Row>)
    requires Walked(columns, names, rows, |rows|, 0)
    ensures Transposed(columns, names, rows)
  {
  }

  lemma WidthOf(s: Shape)
    ensures s.Width() == if s.complex then 2 else 1
  {
  }

  lemma CellIs(scalars: seq<Scalar>, position: nat, width: nat, cell: Cell)
    requires position + width <= |scalars| && 1 <= width <= 2
    requires cell == scalars[position..position + width]
    ensures cell == if width == 2 then [scalars[position], scalars[position + 1]] else [scalars[position]]
  {
  }

  lemma WalkStep(columns: map<string, seq<Cell>>, names: seq<string>, rows: seq<Row>, i: nat, j: nat)
    requires Distinct(names) && Walked(columns, names, rows, i, j) && j < |names| && i < |rows| && j < |rows[i]|
    ensures names[j] in columns
    ensures Walked(columns[names[j] := columns[names[j]] + [rows[i][j]]], names, rows, i, j + 1)
  {
    assert names[j] in Elements(names);
    ColumnGrows(columns[names[j]], rows, j, i);
    hide ColumnIs;
  }

  /** Row slicing: each point is one slice of the flat scalars, paired up when complex. */
  method SliceRows(payload: Bytes, s: Shape) returns (r: Result<seq<Row>, Refusal>)
    ensures r == if LengthFits(payload, s) then Ok(Matrix(payload, s)) else Err(BadLength)
  {
    if |payload| != s.Scalars() * 8 {
      return Err(BadLength);
    }
    var flat := ScalarsOf(payload, s);
    var rowWidth := s.variables * s.Width();
    var rows: seq<Row> := [];
    for i := 0 to s.points
      invariant rows == Matrix(payload, s)[..i]
    {
      SliceBounds(payload, s, i);
      var row := SliceRow(payload, s, i, flat[i * rowWidth..(i + 1) * rowWidth]);
      rows := rows + [row];
    }
    assert rows == Matrix(payload, s);
    r := Ok(rows);
  }

  lemma SliceBounds(payload: Bytes, s: Shape, i: nat)
    requires LengthFits(payload, s) && i < s.points
    ensures 0 <= i * (s.variables * s.Width()) <= (i + 1) * (s.variables * s.Width()) <= |ScalarsOf(payload, s)|
    ensures i * (s.variables * s.Width()) == Start(s, i, 0) && (i + 1) * (s.variables * s.Width()) == Start(s, i + 1, 0)
  {
    StartSteps(s, i, 0);
    StartSteps(s, i + 1, 0);
    Grows(i + 1, s.points, s.variables);
    Grows((i + 1) * s.variables, s.points * s.variables, s.Width());
    hide Chunks;
  }

  lemma Grows(a: nat, b: nat, w: nat)
    requires a <= b
    ensures a * w <= b * w
  {
  }

  /** The cells of one slice. */
  method SliceRow(payload: Bytes, s: Shape, i: nat, scalars: seq<Scalar>) returns (row: Row)
    requires LengthFits(payload, s) && i < s.points
    requires Start(s, i, 0) <= Start(s, i + 1, 0) <= |ScalarsOf(payload, s)|
    requires scalars == ScalarsOf(payload, s)[Start(s, i, 0)..Start(s, i + 1, 0)]
    ensures row == Matrix(payload, s)[i]
  {
    hide *;
    row := [];
    var offset := 0;
    StartSteps(s, 0, 0);
    for j := 0 to s.variables
      invariant offset == Start(s, 0, j)
      invariant |row| == j && forall k :: 0 <= k < j ==> k < |Matrix(payload, s)[i]| && row[k] == Matrix(payload, s)[i][k]
    {
      CellHere(payload, s, i, j);
      WidthOf(s);
      StartSteps(s, i, j);
      StartSteps(s, 0, j);
      StartLast(s, i, j);
      row := row + [if s.complex then [scalars[offset], scalars[offset + 1]] else [scalars[offset]]];
      offset := offset + s.Width();
    }
    RowLength(payload, s, i);
  }

  lemma StartLast(s: Shape, i: nat, j: nat)
    requires j < s.variables
    ensures Start(s, i, j) + s.Width() <= Start(s, i + 1, 0)
  {
    assert (i + 1) * s.variables == i * s.variables + s.variables;
    assert (s.variables - j - 1) * s.Width() >= 0;
  }

  lemma RowLength(payload: Bytes, s: Shape, i: nat)
    requires LengthFits(payload, s) && i < s.points
    ensures |Matrix(payload, s)[i]| == s.variables
  {
    hide Chunks;
    ChunkIsSlice(Chunks(ScalarsOf(payload, s), s.Cells(), s.Width()), s.points, s.variables, i);
  }

  /** Strided columns: real data only, every `variables`-th scalar from the column's own start. */
  method StridedColumns(payload: Bytes, names: seq<string>, points: nat)
    returns (r: Result<map<string, seq<Cell>>, Refusal>)
    ensures DecodesColumns(r, payload, names, Shape(points, |names|, false))
  {
    if !Distinct(names) {
      return Err(RepeatedName);
    }
    var s := Shape(points, |names|, false);
    if |payload| != points * |names| * 8 {
      return Err(BadLength);
    }
    var values := ScalarsOf(payload, s);
    if !AllFinite(values) {
      return Err(NonFinite);
    }
    ghost var rows := Matrix(payload, s);
    var columns: map<string, seq<Cell>> := map[];
    for column := 0 to |names|
      invariant columns.Keys == Elements(names[..column])
      invariant forall k :: 0 <= k < column ==> names[k] in columns && ColumnIs(columns[names[k]], rows, k, points)
    {
      var picked: seq<Cell> := [];
      for row := 0 to points
        invariant ColumnIs(picked, rows, column, row)
      {
        hide *;
        CellHere(payload, s, row, column);
        WidthOf(s);
        RealStart(s, row, column);
        CellIs(values, row * |names| + column, 1, rows[row][column]);
        ColumnGrows(picked, rows, column, row);
        picked := picked + [[values[row * |names| + column]]];
      }
      columns := columns[names[column] := picked];
    }
    assert names[..|names|] == names;
    r := Ok(columns);
  }

  lemma RealStart(s: Shape, i: nat, j: nat)
    requires !s.complex
    ensures Start(s, i, j) == i * s.variables + j
  {
  }

  /** The walk and the strided columns answer alike on real data; the row slices are their transpose. */
  lemma DecodersAgree(payload: Bytes, names: seq<string>, points: nat, complex: bool, walked: map<string, seq<Cell>>,
                      strided: Result<map<string, seq<Cell>>, Refusal>, i: nat, j: nat)
    requires DecodesColumns(Ok(walked), payload, names, Shape(points, |names|, complex))
    requires i < points && j < |names|
    ensures walked[names[j]][i] == Matrix(payload, Shape(points, |names|, complex))[i][j]
    ensures !complex && DecodesColumns(strided, payload, names, Shape(points, |names|, false)) ==> strided == Ok(walked)
  {
    if !complex && DecodesColumns(strided, payload, names, Shape(points, |names|, false)) {
      hide Matrix;
      forall name | name in Elements(names)
        ensures walked[name] == strided.value[name]
      {
        var k :| 0 <= k < |names| && names[k] == name;
        assert ColumnIs(walked[names[k]], Matrix(payload, Shape(points, |names|, false)), k, points);
      }
      assert walked == strided.value;
    }
  }
}
