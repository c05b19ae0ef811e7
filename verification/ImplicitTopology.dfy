/** flowvis's implicit_topology module: loading a 2D vector field and its
    convergence structures from binary files, the data hashes of the
    triangle-mesh and mesh-data calls, and the dirty flags that drive them.
    Each file is a sequence of 32-bit words; a read past the end yields 0.
    Float values are carried as opaque bit patterns; the grid positions,
    which the source computes in floats, are named by their grid column or
    row. The topology computation itself runs elsewhere: its results are
    parameters. */
module ImplicitTopology {
  import opened Wrappers
  import MeshData
  import opened Arith

  // ---------------------------------------------------------------------
  // Reading the files

  /** Word i of a file, or 0 past its end. */
  function WordAt(file: seq<Word>, i: nat): Word {
    if i < |file| then file[i] else 0
  }

  /** Word i of a file read as a float. */
  function FloatAt(file: seq<Word>, i: nat): Float {
    Float(WordAt(file, i))
  }

  datatype LoadError = WrongDimension | WrongComponents | UnknownStructureType

  // Layout of the vector-field file: dimension, components, x_num, x_min,
  // x_max, y_num, y_min, y_max, then three floats per grid cell.
  const DIMENSION_WORD: nat := 0
  const COMPONENTS_WORD: nat := 1
  const X_NUM_WORD: nat := 2
  const X_MIN_WORD: nat := 3
  const X_MAX_WORD: nat := 4
  const Y_NUM_WORD: nat := 5
  const Y_MIN_WORD: nat := 6
  const Y_MAX_WORD: nat := 7
  const VECTORS_WORD: nat := 8

  /** The header check both triangle callbacks make: two dimensions first,
      then two components. */
  function HeaderError(file: seq<Word>): (r: Option<LoadError>)
    ensures r.None? <==> WordAt(file, DIMENSION_WORD) == 2 && WordAt(file, COMPONENTS_WORD) == 2
    ensures r == Some(WrongComponents) ==> WordAt(file, DIMENSION_WORD) == 2
  {
    if WordAt(file, DIMENSION_WORD) != 2 then Some(WrongDimension)
    else if WordAt(file, COMPONENTS_WORD) != 2 then Some(WrongComponents)
    else None
  }

  /** A grid position component: x_min + x * x_step for column x, or
      y_min + y * y_step for row y. */
  datatype Coordinate = Unset | GridX(column: nat) | GridY(row: nat)

  /** The loaded vector field. */
  datatype VectorField = VectorField(
    xNum: Word, xMin: Float, xMax: Float,
    yNum: Word, yMin: Float, yMax: Float,
    positions: seq<Coordinate>,
    vectors: seq<Float>)

  /** Column and row of flat cell index j in an x_num-wide grid. */
  function Column(j: nat, xNum: nat): nat {
    if xNum == 0 then 0 else j % xNum
  }

  function Row(j: nat, xNum: nat): nat {
    if xNum == 0 then 0 else j / xNum
  }

  /** The flat index of cell (x, y) in an x_num-wide grid, row by row. */
  function CellIndex(x: nat, y: nat, xNum: nat): nat {
    y * xNum + x
  }

  /** Cell (x, y) of an x_num-wide grid lies inside the grid, and its flat
      index gives back its column and row. */
  lemma {:induction false} GridCell(x: nat, y: nat, xNum: nat, yNum: nat)
    requires x < xNum && y < yNum
    ensures CellIndex(x, y, xNum) < xNum * yNum
    ensures Row(CellIndex(x, y, xNum), xNum) == y && Column(CellIndex(x, y, xNum), xNum) == x
  {
    MulSplit(y, 1, xNum);
    MulMonotone(y + 1, yNum, xNum);
    MulCommutes(yNum, xNum);
    DivModUnique(y * xNum + x, xNum, y, x);
  }

  /** The first y rows of an x_num-wide grid lie inside it. */
  lemma {:induction false} RowsInGrid(y: nat, xNum: nat, yNum: nat)
    requires y <= yNum
    ensures y * xNum <= xNum * yNum
  {
    MulMonotone(y, yNum, xNum);
    MulCommutes(yNum, xNum);
  }

  /** What the vector-field loader produces from a file: the extents from
      the header, two position components and three vector floats per grid
      cell, cell (x, y) at index y * x_num + x, with the vector floats read
      in cell order. */
  ghost predicate LoadedFrom(field: VectorField, file: seq<Word>) {
    var xn: nat := WordAt(file, X_NUM_WORD);
    var yn: nat := WordAt(file, Y_NUM_WORD);
    && field.xNum == xn && field.yNum == yn
    && field.xMin == FloatAt(file, X_MIN_WORD) && field.xMax == FloatAt(file, X_MAX_WORD)
    && field.yMin == FloatAt(file, Y_MIN_WORD) && field.yMax == FloatAt(file, Y_MAX_WORD)
    && |field.positions| == 2 * (xn * yn)
    && |field.vectors| == 3 * (xn * yn)
    && (forall x, y :: 0 <= x < xn && 0 <= y < yn ==>
          CellIndex(x, y, xn) < xn * yn
          && field.positions[2 * CellIndex(x, y, xn)] == GridX(x)
          && field.positions[2 * CellIndex(x, y, xn) + 1] == GridY(y))
    && (forall j :: 0 <= j < 3 * (xn * yn) ==> field.vectors[j] == FloatAt(file, VECTORS_WORD + j))
  }

  /** The vector-field part of get_triangle_data_callback: the header check,
      then the nested row/column loops filling positions and vectors. */
  method LoadVectorField(file: seq<Word>) returns (r: Result<VectorField, LoadError>)
    ensures r.Failure? <==> HeaderError(file).Some?
    ensures r.Failure? ==> r.error == HeaderError(file).value
    ensures r.Success? ==> LoadedFrom(r.value, file)
  {
    var err := HeaderError(file);
    if err.Some? {
      return Failure(err.value);
    }
    var xNum: nat := WordAt(file, X_NUM_WORD);
    var yNum: nat := WordAt(file, Y_NUM_WORD);
    var num := xNum * yNum;
    var positions := new Coordinate[2 * num](_ => Unset);
    var vectors := new Float[3 * num](_ => Float(0));
    var xy := 0;
    var y := 0;
    while y < yNum
      invariant 0 <= y <= yNum && xy == y * xNum && xy <= num
      invariant Filled(positions[..], vectors[..], file, xNum, xy)
    {
      LoadRow(file, positions, vectors, xNum, yNum, y, xy);
      assert (y + 1) * xNum == y * xNum + xNum;
      RowsInGrid(y + 1, xNum, yNum);
      xy := xy + xNum;
      y := y + 1;
    }
    assert xy == num by {
      assert yNum * xNum == xNum * yNum;
    }
    r := Success(VectorField(xNum, FloatAt(file, X_MIN_WORD), FloatAt(file, X_MAX_WORD),
      yNum, FloatAt(file, Y_MIN_WORD), FloatAt(file, Y_MAX_WORD), positions[..], vectors[..]));
    FilledIsLoaded(r.value, file);
  }

  /** The first n cells, in flat order, are loaded: their two position
      components and their three vector floats, read from the file in cell
      order. */
  ghost predicate Filled(positions: seq<Coordinate>, vectors: seq<Float>, file: seq<Word>, xNum: nat, n: nat) {
    && 2 * n <= |positions| && 3 * n <= |vectors|
    && (forall j :: 0 <= j < n ==> positions[2 * j] == GridX(Column(j, xNum)) && positions[2 * j + 1] == GridY(Row(j, xNum)))
    && (forall j :: 0 <= j < 3 * n ==> vectors[j] == FloatAt(file, VECTORS_WORD + j))
  }

  /** The inner loop of the vector-field loader: row y, column by column,
      reading three vector floats per cell from the file. */
  method LoadRow(file: seq<Word>, positions: array<Coordinate>, vectors: array<Float>, xNum: nat, yNum: nat, y: nat, xy0: nat)
    requires y < yNum && xy0 == y * xNum
    requires positions.Length == 2 * (xNum * yNum) && vectors.Length == 3 * (xNum * yNum)
    requires Filled(positions[..], vectors[..], file, xNum, xy0)
    modifies positions, vectors
    ensures Filled(positions[..], vectors[..], file, xNum, xy0 + xNum)
  {
    var pos := VECTORS_WORD + 3 * xy0;   // the read position in the file
    var xy := xy0;
    var x := 0;
    while x < xNum
      invariant 0 <= x <= xNum && xy == y * xNum + x && xy <= xNum * yNum
      invariant pos == VECTORS_WORD + 3 * xy
      invariant Filled(positions[..], vectors[..], file, xNum, xy)
    {
      GridCell(x, y, xNum, yNum);
      positions[2 * xy] := GridX(x);
      positions[2 * xy + 1] := GridY(y);
      vectors[3 * xy] := FloatAt(file, pos);
      vectors[3 * xy + 1] := FloatAt(file, pos + 1);
      vectors[3 * xy + 2] := FloatAt(file, pos + 2);
      pos := pos + 3;
      xy := xy + 1;
      x := x + 1;
    }
  }

  /** A field whose whole grid is filled is what the loader produces. */
  lemma {:induction false} FilledIsLoaded(field: VectorField, file: seq<Word>)
    requires field.xNum == WordAt(file, X_NUM_WORD) && field.yNum == WordAt(file, Y_NUM_WORD)
    requires field.xMin == FloatAt(file, X_MIN_WORD) && field.xMax == FloatAt(file, X_MAX_WORD)
    requires field.yMin == FloatAt(file, Y_MIN_WORD) && field.yMax == FloatAt(file, Y_MAX_WORD)
    requires |field.positions| == 2 * (field.xNum * field.yNum) && |field.vectors| == 3 * (field.xNum * field.yNum)
    requires Filled(field.positions, field.vectors, file, field.xNum, field.xNum * field.yNum)
    ensures LoadedFrom(field, file)
  {
    FlatToGrid(field.positions, field.xNum, field.yNum);
  }

  /** Positions stored cell by cell in flat order are stored at
      y * x_num + x for cell (x, y). */
  lemma {:induction false} FlatToGrid(positions: seq<Coordinate>, xNum: nat, yNum: nat)
    requires |positions| == 2 * (xNum * yNum)
    requires forall j :: 0 <= j < xNum * yNum ==>
      positions[2 * j] == GridX(Column(j, xNum)) && positions[2 * j + 1] == GridY(Row(j, xNum))
    ensures forall x, y :: 0 <= x < xNum && 0 <= y < yNum ==>
      CellIndex(x, y, xNum) < xNum * yNum
      && positions[2 * CellIndex(x, y, xNum)] == GridX(x)
      && positions[2 * CellIndex(x, y, xNum) + 1] == GridY(y)
  {
    forall x, y | 0 <= x < xNum && 0 <= y < yNum
      ensures CellIndex(x, y, xNum) < xNum * yNum
      ensures positions[2 * CellIndex(x, y, xNum)] == GridX(x) && positions[2 * CellIndex(x, y, xNum) + 1] == GridY(y)
    {
      FlatCell(positions, xNum, yNum, x, y);
    }
  }

  lemma {:induction false} FlatCell(positions: seq<Coordinate>, xNum: nat, yNum: nat, x: nat, y: nat)
    requires |positions| == 2 * (xNum * yNum) && x < xNum && y < yNum
    requires forall j :: 0 <= j < xNum * yNum ==>
      positions[2 * j] == GridX(Column(j, xNum)) && positions[2 * j + 1] == GridY(Row(j, xNum))
    ensures CellIndex(x, y, xNum) < xNum * yNum
    ensures positions[2 * CellIndex(x, y, xNum)] == GridX(x) && positions[2 * CellIndex(x, y, xNum) + 1] == GridY(y)
  {
    var j := CellIndex(x, y, xNum);
    GridCell(x, y, xNum, yNum);
    assert positions[2 * j] == GridX(Column(j, xNum)) && positions[2 * j + 1] == GridY(Row(j, xNum));
  }

  // ---------------------------------------------------------------------
  // Convergence structures

  /** The parsed convergence structures: two floats per point, four per
      line, and the number of the structure each came from. */
  datatype Structures = Structures(points: seq<Float>, pointIds: seq<nat>, lines: seq<Float>, lineIds: seq<nat>)

  /** Structures i.. of n, the type word of structure i being at `pos`:
      type 0 is a point (two floats), type 1 a line (four floats), any other
      type aborts. */
  function ParseFrom(file: seq<Word>, n: nat, i: nat, pos: nat, acc: Structures): Result<Structures, LoadError>
    requires i <= n
    decreases n - i
  {
    if i == n then Success(acc)
    else
      var t := WordAt(file, pos);
      if t == 0 then
        ParseFrom(file, n, i + 1, pos + 3,
          acc.(points := acc.points + [FloatAt(file, pos + 1), FloatAt(file, pos + 2)], pointIds := acc.pointIds + [i]))
      else if t == 1 then
        ParseFrom(file, n, i + 1, pos + 5,
          acc.(lines := acc.lines + [FloatAt(file, pos + 1), FloatAt(file, pos + 2), FloatAt(file, pos + 3), FloatAt(file, pos + 4)],
               lineIds := acc.lineIds + [i]))
      else
        Failure(UnknownStructureType)
  }

  /** The structures file: a count, then that many structures. */
  function Parse(file: seq<Word>): Result<Structures, LoadError> {
    ParseFrom(file, WordAt(file, 0), 0, 1, Structures([], [], [], []))
  }

  ghost predicate Ascending(ids: seq<nat>) {
    forall a, b :: 0 <= a < b < |ids| ==> ids[a] < ids[b]
  }

  /** The shape of structures 0..i-1 after parsing them: two floats per
      point, four per line, the ids ascending, each structure either a point
      or a line and never both. */
  ghost predicate WellFormed(s: Structures, i: nat) {
    && |s.points| == 2 * |s.pointIds| && |s.lines| == 4 * |s.lineIds|
    && Ascending(s.pointIds) && Ascending(s.lineIds)
    && (forall id :: id in s.pointIds ==> id < i && id !in s.lineIds)
    && (forall id :: id in s.lineIds ==> id < i)
    && (forall k :: 0 <= k < i ==> k in s.pointIds || k in s.lineIds)
  }

  lemma {:induction false} AscendingSnoc(ids: seq<nat>, i: nat)
    requires Ascending(ids) && forall id :: id in ids ==> id < i
    ensures Ascending(ids + [i])
  {
    forall a, b | 0 <= a < b < |ids| + 1
      ensures (ids + [i])[a] < (ids + [i])[b]
    {
      assert ids[a] in ids;
    }
  }

  /** A successful parse of n structures is well formed for n. */
  lemma {:induction false} ParseFromWellFormed(file: seq<Word>, n: nat, i: nat, pos: nat, acc: Structures)
    requires i <= n && WellFormed(acc, i)
    ensures ParseFrom(file, n, i, pos, acc).Success? ==> WellFormed(ParseFrom(file, n, i, pos, acc).value, n)
    decreases n - i
  {
    if i < n {
      var t := WordAt(file, pos);
      if t == 0 {
        var acc' := acc.(points := acc.points + [FloatAt(file, pos + 1), FloatAt(file, pos + 2)], pointIds := acc.pointIds + [i]);
        AscendingSnoc(acc.pointIds, i);
        assert WellFormed(acc', i + 1);
        ParseFromWellFormed(file, n, i + 1, pos + 3, acc');
      } else if t == 1 {
        var acc' := acc.(lines := acc.lines + [FloatAt(file, pos + 1), FloatAt(file, pos + 2), FloatAt(file, pos + 3), FloatAt(file, pos + 4)],
                         lineIds := acc.lineIds + [i]);
        AscendingSnoc(acc.lineIds, i);
        assert WellFormed(acc', i + 1);
        ParseFromWellFormed(file, n, i + 1, pos + 5, acc');
      }
    }
  }

  /** On success the ids of points and lines together number the structures
      0..n-1, each exactly once and in ascending order, with two floats per
      point and four per line. */
  lemma {:induction false} ParseWellFormed(file: seq<Word>)
    ensures Parse(file).Success? ==> WellFormed(Parse(file).value, WordAt(file, 0))
  {
    ParseFromWellFormed(file, WordAt(file, 0), 0, 1, Structures([], [], [], []));
  }

  /** Structures i.. of n, the type word of structure i being at `pos`,
      all have type 0 (a point, followed by two floats) or type 1 (a line,
      followed by four floats). */
  ghost predicate TypesKnown(file: seq<Word>, n: nat, i: nat, pos: nat)
    requires i <= n
    decreases n - i
  {
    i == n
    || (WordAt(file, pos) == 0 && TypesKnown(file, n, i + 1, pos + 3))
    || (WordAt(file, pos) == 1 && TypesKnown(file, n, i + 1, pos + 5))
  }

  /** Parsing succeeds exactly when every structure type it visits is point
      (0) or line (1), and otherwise fails with UnknownStructureType. */
  lemma {:induction false} ParseFromFailsOnType(file: seq<Word>, n: nat, i: nat, pos: nat, acc: Structures)
    requires i <= n
    ensures ParseFrom(file, n, i, pos, acc).Success? <==> TypesKnown(file, n, i, pos)
    ensures ParseFrom(file, n, i, pos, acc).Failure? ==>
      ParseFrom(file, n, i, pos, acc).error == UnknownStructureType
    decreases n - i
  {
    if i < n {
      var t := WordAt(file, pos);
      if t == 0 {
        ParseFromFailsOnType(file, n, i + 1, pos + 3,
          acc.(points := acc.points + [FloatAt(file, pos + 1), FloatAt(file, pos + 2)], pointIds := acc.pointIds + [i]));
      } else if t == 1 {
        ParseFromFailsOnType(file, n, i + 1, pos + 5,
          acc.(lines := acc.lines + [FloatAt(file, pos + 1), FloatAt(file, pos + 2), FloatAt(file, pos + 3), FloatAt(file, pos + 4)],
               lineIds := acc.lineIds + [i]));
      }
    }
  }

  /** The structures part of get_triangle_data_callback: the loop over the
      structure count, reading the file in order. */
  method ParseStructures(file: seq<Word>) returns (r: Result<Structures, LoadError>)
    ensures r == Parse(file)
    ensures r.Success? ==> WellFormed(r.value, WordAt(file, 0))
  {
    var n := WordAt(file, 0);
    var pos := 1;
    var points: seq<Float> := [];
    var lines: seq<Float> := [];
    var pointIds: seq<nat> := [];
    var lineIds: seq<nat> := [];
    var i := 0;
    while i < n
      invariant 0 <= i <= n
      invariant ParseFrom(file, n, i, pos, Structures(points, pointIds, lines, lineIds)) == Parse(file)
    {
      var t := WordAt(file, pos);
      pos := pos + 1;
      if t == 0 {
        points := points + [FloatAt(file, pos), FloatAt(file, pos + 1)];
        pos := pos + 2;
        pointIds := pointIds + [i];
      } else if t == 1 {
        lines := lines + [FloatAt(file, pos), FloatAt(file, pos + 1), FloatAt(file, pos + 2), FloatAt(file, pos + 3)];
        pos := pos + 4;
        lineIds := lineIds + [i];
      } else {
        return Failure(UnknownStructureType);
      }
      i := i + 1;
    }
    r := Success(Structures(points, pointIds, lines, lineIds));
    ParseWellFormed(file);
  }

  // ---------------------------------------------------------------------
  // The data hash of the triangle-mesh call

  /** One result of the running computation. */
  datatype ComputationResult = ComputationResult(
    vertices: seq<Float>, indices: seq<nat>, labels: seq<Float>, distances: seq<Float>, finished: bool)

  /** The hash after the output-update step: while a computation runs and
      the hash is not 0, a ready result adds 1, or resets the hash to 0 once
      the computation has finished. */
  function NextHash(hash: nat, running: bool, ready: Option<ComputationResult>): nat {
    if hash != 0 && running && ready.Some? then (if ready.value.finished then 0 else hash + 1) else hash
  }

  /** The hash after a run of ready results. */
  function HashAfter(hash: nat, results: seq<ComputationResult>): nat {
    if results == [] then hash
    else NextHash(HashAfter(hash, results[..|results| - 1]), true, Some(results[|results| - 1]))
  }

  /** After a successful start (hash 1), k unfinished results give hash 1 + k. */
  lemma {:induction false} HashCountsResults(results: seq<ComputationResult>)
    requires forall k :: 0 <= k < |results| ==> !results[k].finished
    ensures HashAfter(1, results) == 1 + |results|
  {
    if results != [] {
      HashCountsResults(results[..|results| - 1]);
    }
  }

  /** Once a finished result arrives the hash is 0 and stays 0. */
  lemma {:induction false} HashStopsWhenFinished(hash: nat, results: seq<ComputationResult>, k: nat)
    requires k < |results| && results[k].finished
    ensures HashAfter(hash, results) == 0
  {
    if k < |results| - 1 {
      HashStopsWhenFinished(hash, results[..|results| - 1], k);
    }
  }

  /** triangle_mesh_call: the parts the module writes. */
  class TriangleMeshCall {
    var dataHash: nat
    var vertices: seq<Float>
    var indices: seq<nat>
    /** (left, bottom, right, top) */
    var boundingRectangle: Option<(Float, Float, Float, Float)>

    constructor ()
      ensures dataHash == 0 && vertices == [] && indices == [] && boundingRectangle == None
    {
      dataHash := 0;
      vertices := [];
      indices := [];
      boundingRectangle := None;
    }
  }

  /** The computation started on a loaded field and structures; terminate()
      marks it terminated. */
  datatype Computation = Computation(field: VectorField, structures: Structures, terminated: bool)

  /** Whether get_triangle_data_callback loads both files successfully. */
  ghost predicate Loads(vectorFile: Option<seq<Word>>, structuresFile: Option<seq<Word>>) {
    && vectorFile.Some? && structuresFile.Some?
    && HeaderError(vectorFile.value).None?
    && Parse(structuresFile.value).Success?
  }

  /** One dirty-transfer-function block of get_data_data_callback: the data
      set stored under the name, if any, takes the transfer function and is
      marked dirty; the call itself is left alone. */
  method PushTransferFunction(dataCall: MeshData.MeshDataCall, name: string, transferFunction: string)
      modifies dataCall.dataSets.Values`transferFunction, dataCall.dataSets.Values`transferFunctionDirty
    ensures var ds := dataCall.GetData(name);
      ds != null ==> ds.transferFunction == transferFunction && ds.transferFunctionDirty
    ensures forall ds :: ds in old(dataCall.dataSets.Values) && ds != null && ds != dataCall.GetData(name) ==>
      ds.transferFunction == old(ds.transferFunction) && ds.transferFunctionDirty == old(ds.transferFunctionDirty)
  {
    var ds := dataCall.GetData(name);
    if ds != null {
      ds.transferFunction := transferFunction;
      ds.transferFunctionDirty := true;
    }
  }

  class ImplicitTopologyModule {
    /** Dirty flags of the four parameters. */
    var vectorFieldPathDirty: bool
    var convergenceStructuresPathDirty: bool
    var labelTransferFunctionDirty: bool
    var distanceTransferFunctionDirty: bool
    /** Values of the two transfer-function parameters. */
    var labelTransferFunction: string
    var distanceTransferFunction: string

    var outputChanged: bool
    var labels: seq<Float>
    var distances: seq<Float>
    var computation: Option<Computation>

    /** The module starts with no output change and no computation; whether
        a fresh parameter reports itself dirty belongs to the parameter
        classes, so the four flags start as given. */
    constructor (labelTransferFunction: string, distanceTransferFunction: string, initiallyDirty: bool)
      ensures vectorFieldPathDirty == initiallyDirty && convergenceStructuresPathDirty == initiallyDirty
      ensures labelTransferFunctionDirty == initiallyDirty && distanceTransferFunctionDirty == initiallyDirty
      ensures this.labelTransferFunction == labelTransferFunction
      ensures this.distanceTransferFunction == distanceTransferFunction
      ensures !outputChanged && labels == [] && distances == [] && computation == None
    {
      vectorFieldPathDirty := initiallyDirty;
      convergenceStructuresPathDirty := initiallyDirty;
      labelTransferFunctionDirty := initiallyDirty;
      distanceTransferFunctionDirty := initiallyDirty;
      this.labelTransferFunction := labelTransferFunction;
      this.distanceTransferFunction := distanceTransferFunction;
      outputChanged := false;
      labels := [];
      distances := [];
      computation := None;
    }

    /** The reload half of get_triangle_data_callback: resets both path flags
        and the hash, terminates an earlier computation, loads both files
        (None: a file that cannot be opened) and starts a new computation with
        hash 1. */
    method Reload(call: TriangleMeshCall, vectorFile: Option<seq<Word>>, structuresFile: Option<seq<Word>>)
      returns (ok: bool)
      modifies this`vectorFieldPathDirty, this`convergenceStructuresPathDirty, this`computation, this`outputChanged, call`dataHash
      ensures !vectorFieldPathDirty && !convergenceStructuresPathDirty
      ensures ok <==> Loads(vectorFile, structuresFile)
      ensures ok ==> call.dataHash == 1 && outputChanged
      ensures ok ==> computation.Some? && !computation.value.terminated
      ensures ok ==> LoadedFrom(computation.value.field, vectorFile.value)
      ensures ok ==> Success(computation.value.structures) == Parse(structuresFile.value)
      ensures !ok ==> call.dataHash == 0 && outputChanged == old(outputChanged)
      ensures !ok ==> computation == if old(computation).Some? then Some(old(computation).value.(terminated := true)) else None
    {
      vectorFieldPathDirty := false;
      convergenceStructuresPathDirty := false;
      call.dataHash := 0;
      if computation.Some? {
        computation := Some(computation.value.(terminated := true));
      }
      if vectorFile.Some? && structuresFile.Some? {
        var field := LoadVectorField(vectorFile.value);
        if field.Failure? {
          return false;
        }
        var structures := ParseStructures(structuresFile.value);
        if structures.Failure? {
          return false;
        }
        computation := Some(Computation(field.value, structures.value, false));
        call.dataHash := 1;
        outputChanged := true;
        return true;
      }
      return false;
    }

    /** The update half of get_triangle_data_callback: with a computation
        running and the hash not 0, a ready result (None: not ready within the
        wait) is stored and moves the hash on. */
    method UpdateOutput(call: TriangleMeshCall, ready: Option<ComputationResult>)
      modifies this`labels, this`distances, this`outputChanged, call
      ensures call.dataHash == NextHash(old(call.dataHash), computation.Some?, ready)
      ensures call.boundingRectangle == old(call.boundingRectangle)
      ensures old(call.dataHash) != 0 && computation.Some? && ready.Some? ==>
        && call.vertices == ready.value.vertices && call.indices == ready.value.indices
        && labels == ready.value.labels && distances == ready.value.distances
        && outputChanged
      ensures !(old(call.dataHash) != 0 && computation.Some? && ready.Some?) ==>
        && call.vertices == old(call.vertices) && call.indices == old(call.indices)
        && labels == old(labels) && distances == old(distances)
        && outputChanged == old(outputChanged)
    {
      if call.dataHash != 0 && computation.Some? {
        if ready.None? {
          return;
        }
        var result := ready.value;
        call.vertices := result.vertices;
        call.indices := result.indices;
        labels := result.labels;
        distances := result.distances;
        if result.finished {
          call.dataHash := 0;
        } else {
          call.dataHash := call.dataHash + 1;
        }
        outputChanged := true;
      }
    }

    /** get_triangle_data_callback: a reload when a path changed, which fails
        on a file that cannot be opened, a bad header or an unknown structure
        type, then the output update. */
    method GetTriangleDataCallback(call: TriangleMeshCall, vectorFile: Option<seq<Word>>,
                                   structuresFile: Option<seq<Word>>, ready: Option<ComputationResult>)
      returns (ok: bool)
      modifies this`vectorFieldPathDirty, this`convergenceStructuresPathDirty, this`computation,
        this`outputChanged, this`labels, this`distances, call
      ensures var reload := old(vectorFieldPathDirty || convergenceStructuresPathDirty);
        && (ok <==> !reload || Loads(vectorFile, structuresFile))
        && (reload ==> !vectorFieldPathDirty && !convergenceStructuresPathDirty)
        && (!ok ==> call.dataHash == 0)
        && (ok ==> call.dataHash == NextHash(if reload then 1 else old(call.dataHash), computation.Some?, ready))
    {
      if vectorFieldPathDirty || convergenceStructuresPathDirty {
        var loaded := Reload(call, vectorFile, structuresFile);
        if !loaded {
          return false;
        }
      }
      UpdateOutput(call, ready);
      return true;
    }

    /** get_triangle_extent_callback: while the vector-field path is dirty,
        reads the extents from the header (the dirty flag stays set), fails on
        a bad header, and on a file that cannot be opened resets the hash and
        the flag and fails. */
    method GetTriangleExtentCallback(call: TriangleMeshCall, vectorFile: Option<seq<Word>>)
      returns (ok: bool)
      modifies this`vectorFieldPathDirty, call`dataHash, call`boundingRectangle
      ensures !old(vectorFieldPathDirty) ==> ok && unchanged(call) && vectorFieldPathDirty == old(vectorFieldPathDirty)
      ensures old(vectorFieldPathDirty) && vectorFile.None? ==> !ok && call.dataHash == 0 && !vectorFieldPathDirty
      ensures old(vectorFieldPathDirty) && vectorFile.Some? ==>
        && vectorFieldPathDirty && call.dataHash == old(call.dataHash)
        && (ok <==> HeaderError(vectorFile.value).None?)
        && (ok ==> call.boundingRectangle == Some((
              FloatAt(vectorFile.value, X_MIN_WORD), FloatAt(vectorFile.value, Y_MIN_WORD),
              FloatAt(vectorFile.value, X_MAX_WORD), FloatAt(vectorFile.value, Y_MAX_WORD))))
        && (!ok ==> call.boundingRectangle == old(call.boundingRectangle))
    {
      if vectorFieldPathDirty {
        if vectorFile.Some? {
          var file := vectorFile.value;
          if HeaderError(file).Some? {
            return false;
          }
          call.boundingRectangle := Some((FloatAt(file, X_MIN_WORD), FloatAt(file, Y_MIN_WORD),
                                          FloatAt(file, X_MAX_WORD), FloatAt(file, Y_MAX_WORD)));
        } else {
          call.dataHash := 0;
          vectorFieldPathDirty := false;
          return false;
        }
      }
      return true;
    }

    /** The first half of get_data_data_callback: after the output changed,
        publishes fresh "labels" and "distances" data sets and bumps the hash
        by one. The minimum and maximum of the labels and distances are
        computed in floats and are parameters. */
    method PublishOutput(dataCall: MeshData.MeshDataCall, labelRange: (Float, Float), distanceRange: (Float, Float))
      requires outputChanged ==> |labels| > 0 && |distances| > 0
      modifies this`outputChanged, dataCall
      ensures !outputChanged
      ensures old(outputChanged) ==> dataCall.dataHash == old(dataCall.dataHash) + 1
      ensures !old(outputChanged) ==> dataCall.dataHash == old(dataCall.dataHash) && dataCall.dataSets == old(dataCall.dataSets)
      ensures old(outputChanged) ==> dataCall.dataSets.Keys == old(dataCall.dataSets.Keys) + {"labels", "distances"}
      ensures old(outputChanged) ==>
        var l := dataCall.dataSets["labels"];
        var d := dataCall.dataSets["distances"];
        && l != null && d != null && l != d && fresh(l) && fresh(d)
        && l.data == labels && d.data == distances
        && (l.minValue, l.maxValue) == labelRange && (d.minValue, d.maxValue) == distanceRange
        && l.transferFunction == labelTransferFunction && d.transferFunction == distanceTransferFunction
        && !l.transferFunctionDirty && !d.transferFunctionDirty
      ensures forall name :: name in dataCall.dataSets && name != "labels" && name != "distances" ==>
        name in old(dataCall.dataSets) && dataCall.dataSets[name] == old(dataCall.dataSets[name])
    {
      if outputChanged {
        var labelData := new MeshData.DataSet(labelTransferFunction, false, labelRange.0, labelRange.1, labels);
        dataCall.SetData("labels", labelData);
        var distanceData := new MeshData.DataSet(distanceTransferFunction, false, distanceRange.0, distanceRange.1, distances);
        dataCall.SetData("distances", distanceData);
        dataCall.dataHash := dataCall.dataHash + 1;
        outputChanged := false;
      }
    }

    /** get_data_data_callback: publishes the output if it changed, then
        copies each dirty transfer function into the data set of its name, if
        one exists, marks it dirty there and clears the module's flag. */
    method GetDataDataCallback(dataCall: MeshData.MeshDataCall, labelRange: (Float, Float), distanceRange: (Float, Float))
      requires outputChanged ==> |labels| > 0 && |distances| > 0
      modifies this`outputChanged, this`labelTransferFunctionDirty, this`distanceTransferFunctionDirty
      modifies dataCall, dataCall.dataSets.Values
      ensures !outputChanged && !labelTransferFunctionDirty && !distanceTransferFunctionDirty
      ensures old(outputChanged) ==> dataCall.dataHash == old(dataCall.dataHash) + 1
      ensures !old(outputChanged) ==> dataCall.dataHash == old(dataCall.dataHash) && dataCall.dataSets == old(dataCall.dataSets)
      ensures old(outputChanged) ==> dataCall.dataSets.Keys == old(dataCall.dataSets.Keys) + {"labels", "distances"}
      ensures old(outputChanged) ==>
        var l := dataCall.dataSets["labels"];
        var d := dataCall.dataSets["distances"];
        && l != null && d != null && l != d && fresh(l) && fresh(d)
        && l.data == labels && d.data == distances
        && (l.minValue, l.maxValue) == labelRange && (d.minValue, d.maxValue) == distanceRange
        && l.transferFunction == labelTransferFunction && d.transferFunction == distanceTransferFunction
        && l.transferFunctionDirty == old(labelTransferFunctionDirty)
        && d.transferFunctionDirty == old(distanceTransferFunctionDirty)
      ensures forall name :: name in dataCall.dataSets && name != "labels" && name != "distances" ==>
        name in old(dataCall.dataSets) && dataCall.dataSets[name] == old(dataCall.dataSets[name])
      ensures forall ds :: ds in old(dataCall.dataSets.Values) && ds != null ==>
        ds.data == old(ds.data) && ds.minValue == old(ds.minValue) && ds.maxValue == old(ds.maxValue)
      ensures forall ds :: (ds in old(dataCall.dataSets.Values) && ds != null
                            && ds != dataCall.GetData("labels") && ds != dataCall.GetData("distances")) ==>
        ds.transferFunction == old(ds.transferFunction) && ds.transferFunctionDirty == old(ds.transferFunctionDirty)
      ensures var l := dataCall.GetData("labels");
        var d := dataCall.GetData("distances");
        && (old(distanceTransferFunctionDirty) && d != null ==> d.transferFunction == distanceTransferFunction && d.transferFunctionDirty)
        && (old(labelTransferFunctionDirty) && l != null && (l != d || !old(distanceTransferFunctionDirty)) ==>
              l.transferFunction == labelTransferFunction && l.transferFunctionDirty)
    {
      PublishOutput(dataCall, labelRange, distanceRange);
      if labelTransferFunctionDirty {
        PushTransferFunction(dataCall, "labels", labelTransferFunction);
        labelTransferFunctionDirty := false;
      }
      if distanceTransferFunctionDirty {
        PushTransferFunction(dataCall, "distances", distanceTransferFunction);
        distanceTransferFunctionDirty := false;
      }
    }

    /** get_data_extent_callback: registers both names without replacing
        data sets already stored under them. */
    method GetDataExtentCallback(dataCall: MeshData.MeshDataCall)
      modifies dataCall`dataSets
      ensures dataCall.dataSets.Keys == old(dataCall.dataSets.Keys) + {"labels", "distances"}
      ensures forall name :: name in old(dataCall.dataSets) ==> dataCall.dataSets[name] == old(dataCall.dataSets[name])
      ensures forall name :: name in dataCall.dataSets && name !in old(dataCall.dataSets) ==> dataCall.dataSets[name] == null
    {
      dataCall.SetData("labels");
      dataCall.SetData("distances");
    }
  }
}
