/** `ErodeFieldDataAlgo`: morphological erosion of scalar field data. Each
    iteration replaces every value by the minimum of itself and its mesh
    neighbours, reading only the buffer of the previous iteration; the buffer
    is refreshed from the output once a full sweep is done.

    The mesh is abstracted as a neighbour function and the ten C++ scalar
    types the algorithm is instantiated for as one ordered value type, `int`. */
module Erode {
  import opened Wrappers

  /** Neighbour lists of the mesh: of a node (node neighbours) or of an
      element (element neighbours). */
  type Neighbors = nat -> seq<nat>

  /** Every neighbour of every one of the `size` cells is itself a cell. */
  predicate MeshValid(nbrs: Neighbors, size: nat)
  {
    forall i, t :: 0 <= i < size && 0 <= t < |nbrs(i)| ==> nbrs(i)[t] < size
  }

  /** The inner loop of a sweep: starting from `val`, every neighbour value
      below the current one replaces it. */
  function MinOver(buf: seq<int>, val: int, ns: seq<nat>): (r: int)
    requires forall t :: 0 <= t < |ns| ==> ns[t] < |buf|
    ensures r <= val
    ensures forall t :: 0 <= t < |ns| ==> r <= buf[ns[t]]
    ensures r == val || exists t :: 0 <= t < |ns| && r == buf[ns[t]]
    decreases |ns|
  {
    if ns == [] then val
    else
      var prev := MinOver(buf, val, ns[..|ns| - 1]);
      var nval := buf[ns[|ns| - 1]];
      if nval < prev then nval else prev
  }

  /** One output cell of a sweep over the previous buffer `buf`. */
  function Cell(buf: seq<int>, nbrs: Neighbors, i: nat): (r: int)
    requires MeshValid(nbrs, |buf|) && i < |buf|
    ensures r <= buf[i]
    ensures forall t :: 0 <= t < |nbrs(i)| ==> r <= buf[nbrs(i)[t]]
    ensures r == buf[i] || exists t :: 0 <= t < |nbrs(i)| && r == buf[nbrs(i)[t]]
  {
    MinOver(buf, buf[i], nbrs(i))
  }

  /** One full sweep: every output cell is computed from `buf` alone. */
  function Sweep(buf: seq<int>, nbrs: Neighbors): (out: seq<int>)
    requires MeshValid(nbrs, |buf|)
    ensures |out| == |buf|
    ensures forall i :: 0 <= i < |buf| ==> out[i] == Cell(buf, nbrs, i)
  {
    seq(|buf|, i requires 0 <= i < |buf| => Cell(buf, nbrs, i))
  }

  /** `k` sweeps, each reading the result of the previous one. */
  function Iterate(buf: seq<int>, nbrs: Neighbors, k: nat): (out: seq<int>)
    requires MeshValid(nbrs, |buf|)
    ensures |out| == |buf|
    decreases k
  {
    if k == 0 then buf else Sweep(Iterate(buf, nbrs, k - 1), nbrs)
  }

  /** `j` is reachable from `i` in at most `k` neighbour steps. */
  predicate Reaches(nbrs: Neighbors, i: nat, j: nat, k: nat)
    decreases k
  {
    i == j ||
    (k > 0 && exists t :: 0 <= t < |nbrs(i)| && Reaches(nbrs, nbrs(i)[t], j, k - 1))
  }

  lemma {:induction false} ReachesMonotone(nbrs: Neighbors, i: nat, j: nat, k: nat)
    requires Reaches(nbrs, i, j, k)
    ensures Reaches(nbrs, i, j, k + 1)
    decreases k
  {
    if i != j {
      var t :| 0 <= t < |nbrs(i)| && Reaches(nbrs, nbrs(i)[t], j, k - 1);
      ReachesMonotone(nbrs, nbrs(i)[t], j, k - 1);
    }
  }

  /** Erosion never raises a value. */
  lemma {:induction false} IterateNeverIncreases(buf: seq<int>, nbrs: Neighbors, k: nat)
    requires MeshValid(nbrs, |buf|)
    ensures forall i :: 0 <= i < |buf| ==> Iterate(buf, nbrs, k)[i] <= buf[i]
  {
    if k > 0 {
      IterateNeverIncreases(buf, nbrs, k - 1);
    }
  }

  /** After `k` iterations a cell is at most every input value reachable from
      it in at most `k` neighbour steps ... */
  lemma {:induction false} IterateBelowReachable(buf: seq<int>, nbrs: Neighbors, k: nat, i: nat, j: nat)
    requires MeshValid(nbrs, |buf|) && i < |buf| && j < |buf|
    requires Reaches(nbrs, i, j, k)
    ensures Iterate(buf, nbrs, k)[i] <= buf[j]
    decreases k
  {
    if i == j {
      IterateNeverIncreases(buf, nbrs, k);
    } else {
      var t :| 0 <= t < |nbrs(i)| && Reaches(nbrs, nbrs(i)[t], j, k - 1);
      var n := nbrs(i)[t];
      IterateBelowReachable(buf, nbrs, k - 1, n, j);
      var prev := Iterate(buf, nbrs, k - 1);
      assert Iterate(buf, nbrs, k)[i] == Cell(prev, nbrs, i);
      assert Cell(prev, nbrs, i) <= prev[n];
    }
  }

  /** ... and equal to one of them: it holds exactly the minimum of the input
      over the cells reachable in at most `k` steps. */
  lemma {:induction false} IterateAttainsReachable(buf: seq<int>, nbrs: Neighbors, k: nat, i: nat)
    returns (j: nat)
    requires MeshValid(nbrs, |buf|) && i < |buf|
    ensures j < |buf| && Reaches(nbrs, i, j, k) && Iterate(buf, nbrs, k)[i] == buf[j]
    decreases k
  {
    if k == 0 {
      j := i;
    } else {
      var prev := Iterate(buf, nbrs, k - 1);
      var n := SweepSource(prev, nbrs, i);
      j := IterateAttainsReachable(buf, nbrs, k - 1, n);
      if n == i {
        ReachesMonotone(nbrs, i, j, k - 1);
      } else {
        ReachesStep(nbrs, i, n, j, k);
      }
    }
  }

  /** The cell a sweep copied into cell `i`: `i` itself or one of its
      neighbours. */
  lemma SweepSource(prev: seq<int>, nbrs: Neighbors, i: nat) returns (n: nat)
    requires MeshValid(nbrs, |prev|) && i < |prev|
    ensures n < |prev| && Sweep(prev, nbrs)[i] == prev[n]
    ensures n == i || n in nbrs(i)
  {
    if Cell(prev, nbrs, i) == prev[i] {
      n := i;
    } else {
      var t :| 0 <= t < |nbrs(i)| && Cell(prev, nbrs, i) == prev[nbrs(i)[t]];
      n := nbrs(i)[t];
    }
  }

  lemma ReachesStep(nbrs: Neighbors, i: nat, n: nat, j: nat, k: nat)
    requires k > 0 && n in nbrs(i) && Reaches(nbrs, n, j, k - 1)
    ensures Reaches(nbrs, i, j, k)
  {
    var t :| 0 <= t < |nbrs(i)| && nbrs(i)[t] == n;
  }

  /** Every output value is one of the input values. */
  lemma IterateTakesInputValues(buf: seq<int>, nbrs: Neighbors, k: nat)
    requires MeshValid(nbrs, |buf|)
    ensures forall i :: 0 <= i < |buf| ==> Iterate(buf, nbrs, k)[i] in buf
  {
    forall i | 0 <= i < |buf|
      ensures Iterate(buf, nbrs, k)[i] in buf
    {
      var j := IterateAttainsReachable(buf, nbrs, k, i);
    }
  }

  /** Hence no output value falls below a lower bound of the input. */
  lemma IterateKeepsLowerBound(buf: seq<int>, nbrs: Neighbors, k: nat, lo: int)
    requires MeshValid(nbrs, |buf|)
    requires forall j :: 0 <= j < |buf| ==> lo <= buf[j]
    ensures forall i :: 0 <= i < |buf| ==> lo <= Iterate(buf, nbrs, k)[i]
  {
    IterateTakesInputValues(buf, nbrs, k);
  }

  /** A constant field is a fixed point of erosion. */
  lemma {:induction false} ConstantFieldIsFixedPoint(buf: seq<int>, nbrs: Neighbors, k: nat, c: int)
    requires MeshValid(nbrs, |buf|)
    requires forall j :: 0 <= j < |buf| ==> buf[j] == c
    ensures Iterate(buf, nbrs, k) == buf
  {
    if k > 0 {
      ConstantFieldIsFixedPoint(buf, nbrs, k - 1, c);
      var out := Iterate(buf, nbrs, k);
      forall i | 0 <= i < |buf|
        ensures out[i] == buf[i]
      {
        assert out[i] == Cell(buf, nbrs, i);
        assert out[i] == c;
      }
    }
  }

  /** Visiting the cells in an arbitrary `order`, each written from the
      unchanged previous buffer. */
  function SweepInOrder(buf: seq<int>, nbrs: Neighbors, out: seq<int>, order: seq<nat>): (r: seq<int>)
    requires MeshValid(nbrs, |buf|) && |out| == |buf|
    requires forall t :: 0 <= t < |order| ==> order[t] < |buf|
    ensures |r| == |buf|
    decreases |order|
  {
    if order == [] then out
    else SweepInOrder(buf, nbrs, out[order[0] := Cell(buf, nbrs, order[0])], order[1..])
  }

  lemma {:induction false} SweepInOrderCells(buf: seq<int>, nbrs: Neighbors, out: seq<int>, order: seq<nat>)
    requires MeshValid(nbrs, |buf|) && |out| == |buf|
    requires forall t :: 0 <= t < |order| ==> order[t] < |buf|
    ensures forall i :: 0 <= i < |buf| ==>
      SweepInOrder(buf, nbrs, out, order)[i] == if i in order then Cell(buf, nbrs, i) else out[i]
    decreases |order|
  {
    if order != [] {
      var out' := out[order[0] := Cell(buf, nbrs, order[0])];
      SweepInOrderCells(buf, nbrs, out', order[1..]);
      forall i | 0 <= i < |buf|
        ensures (i in order) <==> (i == order[0] || i in order[1..])
      {
        assert order == [order[0]] + order[1..];
      }
    }
  }

  /** Because a sweep reads only the previous buffer, the order in which the
      cells are visited does not matter. */
  lemma SweepOrderIrrelevant(buf: seq<int>, nbrs: Neighbors, out: seq<int>, order: seq<nat>)
    requires MeshValid(nbrs, |buf|) && |out| == |buf|
    requires forall t :: 0 <= t < |order| ==> order[t] < |buf|
    requires forall i :: 0 <= i < |buf| ==> i in order
    ensures SweepInOrder(buf, nbrs, out, order) == Sweep(buf, nbrs)
  {
    SweepInOrderCells(buf, nbrs, out, order);
  }

  /** The double-buffered loops of `ErodeFieldDataNodeV` / `ErodeFieldDataElemV`
      on the data array of a field. */
  method ErodeData(input: seq<int>, nbrs: Neighbors, numIter: int) returns (output: seq<int>)
    requires MeshValid(nbrs, |input|)
    ensures output == Iterate(input, nbrs, if numIter > 0 then numIter else 0)
    ensures numIter <= 0 ==> output == input
    ensures |output| == |input|
  {
    output := input;
    var buffer := input;
    var p := 0;
    while p < numIter
      invariant 0 <= p <= (if numIter > 0 then numIter else 0)
      invariant buffer == output == Iterate(input, nbrs, p)
    {
      var idx := 0;
      while idx < |buffer|
        invariant 0 <= idx <= |buffer| == |output|
        invariant forall q :: 0 <= q < idx ==> output[q] == Cell(buffer, nbrs, q)
      {
        var nodes := nbrs(idx);
        var val := buffer[idx];
        var j := 0;
        while j < |nodes|
          invariant 0 <= j <= |nodes|
          invariant val == MinOver(buffer, buffer[idx], nodes[..j])
        {
          var nval := buffer[nodes[j]];
          assert nodes[..j + 1][..j] == nodes[..j];
          if nval < val {
            val := nval;
          }
          j := j + 1;
        }
        assert nodes[..j] == nodes;
        output := output[idx := val];
        idx := idx + 1;
      }
      assert output == Sweep(buffer, nbrs);
      buffer := output;
      p := p + 1;
    }
  }

  // ---------------------------------------------------------------------
  // Field validation and dispatch.

  /** Where the field's data values live. */
  datatype DataBasis =
    | NoDataBasis       // no data in the field
    | ConstantBasis     // one value per element
    | LinearBasis       // one value per node
    | HigherOrderBasis  // quadratic or cubic data

  /** The C++ value types the algorithm is instantiated for, and any other. */
  datatype ValueType =
    | Char | UnsignedChar | Short | UnsignedShort | Int | UnsignedInt
    | LongLong | UnsignedLongLong | Float | Double | OtherType

  /** What the algorithm reads of a field: the type queries and the data,
      with the mesh reduced to its two neighbour functions. `nonLinear` is the
      `is_nonlinear` query: quadratic or cubic elements in mesh or data. */
  datatype Field = Field(
    nonLinear: bool,
    basis: DataBasis,
    isScalar: bool,
    valueType: ValueType,
    values: seq<int>,
    nodeNeighbors: Neighbors,
    elemNeighbors: Neighbors)

  datatype ErodeError =
    | NoInputField        // "No input field"
    | NonLinearElements   // "not yet been defined for non-linear elements"
    | NoDataInField       // "There is no data defined in the input field"
    | NotScalarData       // "The field data is not scalar data"
    | NotDispatched       // no branch matched: `runImpl` returns false silently

  /** The neighbour function the sweep uses for the field's basis. */
  function SweepNeighbors(f: Field): Neighbors
  {
    if f.basis == ConstantBasis then f.elemNeighbors else f.nodeNeighbors
  }

  /** The data array is indexed consistently by the mesh that owns it. */
  predicate FieldConsistent(f: Field)
  {
    MeshValid(SweepNeighbors(f), |f.values|)
  }

  /** `ErodeFieldDataAlgo::runImpl`: the checks in source order, then the
      erosion over element or node neighbours. The output is a clone of the
      input whose data has been eroded. */
  function RunImpl(input: Option<Field>, maxIterations: int): (r: Result<Field, ErodeError>)
    requires input.Some? ==> FieldConsistent(input.value)
    ensures input.None? ==> r == Failure(NoInputField)
    ensures input.Some? ==> var f := input.value;
      && (f.nonLinear ==> r == Failure(NonLinearElements))
      && (!f.nonLinear && f.basis == NoDataBasis ==> r == Failure(NoDataInField))
      && (!f.nonLinear && f.basis != NoDataBasis && !f.isScalar ==> r == Failure(NotScalarData))
    ensures r.Success? <==>
      input.Some? && !input.value.nonLinear && input.value.isScalar &&
      input.value.basis in {ConstantBasis, LinearBasis} && input.value.valueType != OtherType
    ensures r.Success? ==>
      var f := input.value;
      var k := if maxIterations > 0 then maxIterations else 0;
      && (f.basis == ConstantBasis ==> r.value.values == Iterate(f.values, f.elemNeighbors, k))
      && (f.basis == LinearBasis ==> r.value.values == Iterate(f.values, f.nodeNeighbors, k))
      && r.value == f.(values := r.value.values)
      && |r.value.values| == |f.values|
      && forall i :: 0 <= i < |f.values| ==> r.value.values[i] <= f.values[i]
  {
    if input.None? then Failure(NoInputField)
    else
      var f := input.value;
      if f.nonLinear then Failure(NonLinearElements)
      else if f.basis == NoDataBasis then Failure(NoDataInField)
      else if !f.isScalar then Failure(NotScalarData)
      else if f.basis == ConstantBasis && f.valueType != OtherType then
        ErodeWith(f, f.elemNeighbors, maxIterations)
      else if f.basis == LinearBasis && f.valueType != OtherType then
        ErodeWith(f, f.nodeNeighbors, maxIterations)
      else Failure(NotDispatched)
  }

  /** The body shared by both template functions: clone the field and erode
      its data `maxIterations` times (not at all when that is not positive). */
  function ErodeWith(f: Field, nbrs: Neighbors, maxIterations: int): (r: Result<Field, ErodeError>)
    requires MeshValid(nbrs, |f.values|)
    ensures r.Success?
    ensures r.value == f.(values := Iterate(f.values, nbrs, if maxIterations > 0 then maxIterations else 0))
    ensures forall i :: 0 <= i < |f.values| ==> r.value.values[i] <= f.values[i]
  {
    var k: nat := if maxIterations > 0 then maxIterations else 0;
    IterateNeverIncreases(f.values, nbrs, k);
    Success(f.(values := Iterate(f.values, nbrs, k)))
  }

  /** The algorithm's parameters. */
  datatype ErodeAlgo = ErodeAlgo(maxIterations: int)

  /** The constructor registers `MaxIterations` with default 2. */
  const DefaultAlgo := ErodeAlgo(2)

  datatype AlgorithmError = AlgorithmProcessingError(message: string)

  /** `ErodeFieldDataAlgo::run`: any failure of `runImpl` becomes a
      processing error; success hands on the output field. */
  function Run(algo: ErodeAlgo, input: Option<Field>): (r: Result<Field, AlgorithmError>)
    requires input.Some? ==> FieldConsistent(input.value)
    ensures r.Failure? <==> RunImpl(input, algo.maxIterations).Failure?
    ensures r.Failure? ==> r.error == AlgorithmProcessingError("False returned on legacy run call.")
    ensures r.Success? ==> r.value == RunImpl(input, algo.maxIterations).value
  {
    match RunImpl(input, algo.maxIterations)
    case Failure(_) => Failure(AlgorithmProcessingError("False returned on legacy run call."))
    case Success(out) => Success(out)
  }

  /** With the default parameters the algorithm performs exactly two sweeps. */
  lemma DefaultAlgoSweepsTwice(f: Field)
    requires FieldConsistent(f)
    requires Run(DefaultAlgo, Some(f)).Success?
    ensures Run(DefaultAlgo, Some(f)).value.values ==
      Sweep(Sweep(f.values, SweepNeighbors(f)), SweepNeighbors(f))
  {
    var nbrs := SweepNeighbors(f);
    assert Iterate(f.values, nbrs, 2) == Sweep(Iterate(f.values, nbrs, 1), nbrs);
    assert Iterate(f.values, nbrs, 1) == Sweep(f.values, nbrs);
  }
}
