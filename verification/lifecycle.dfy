/** The engine's raw heap buffers over its lifetime: the `ncp_krp` array, which the
    dimension-tree switch frees, and the dimension tree `kdt`, which only `computeNTF`
    builds and the destructor deletes. The other buffers `allocateMatrices` creates are
    freed once, by the destructor, and are not tracked. The engine as written faults
    when the switch is turned on; the corrected engine, which nulls what it frees,
    guards what it touches and initialises `kdt`, never does. */
module Lifecycle {

  /** The state of the memory a raw pointer designates. */
  datatype Block = Live | Freed | Null

  /** The dimension-tree pointer: never assigned (the source leaves it uninitialised),
      null, or pointing at a tree `computeNTF` built. */
  datatype Tree = Unset | NoTree | Built

  datatype Fault =
    | UseAfterFree(line: nat)       // reading or clearing an array already deleted
    | DoubleFree(line: nat)         // `delete[]` of an array already deleted
    | DeleteUnset(line: nat)        // `delete` of a pointer never assigned

  /** `krp`: the `ncp_krp` array; `kdt`: the dimension tree; `dimTree`: the switch;
      `faults`: every memory fault so far, in order. */
  datatype Heap = Heap(krp: Block, kdt: Tree, dimTree: bool, faults: seq<Fault>)

  /** The calls a user makes between construction and destruction. */
  datatype Call =
    | SetDimTree(on: bool)   // dim_tree(on)
    | Compute(iters: nat)    // num_iterations(iters) and computeNTF()

  /** The faults recorded by `after` extend those of `before`. */
  predicate Extends(before: Heap, after: Heap) {
    |before.faults| <= |after.faults| && after.faults[..|before.faults|] == before.faults
  }

  // ---- as written ----

  /** The constructor: `allocateMatrices` allocates `ncp_krp`; `kdt` is never assigned. */
  function Construct(): (h: Heap)
    ensures h.krp == Live && h.kdt == Unset && !h.dimTree && h.faults == []
  {
    Heap(Live, Unset, false, [])
  }

  /** `dim_tree(on)`, lines 368-377: when turned on and the pointer is not null, every
      element is cleared (line 373) and the array deleted (line 375); the pointer keeps
      its old value. A second call therefore clears and deletes freed memory. */
  function DimTreeAsWritten(h: Heap, on: bool): (r: Heap)
    ensures Extends(h, r) && r.dimTree == on && r.kdt == h.kdt
    ensures on && h.krp != Null ==> r.krp == Freed
    ensures !on || h.krp == Null ==> r.krp == h.krp
    ensures |r.faults| > |h.faults| <==> on && h.krp == Freed
  {
    if on && h.krp != Null then
      var faults := if h.krp == Freed then [UseAfterFree(373), DoubleFree(375)] else [];
      Heap(Freed, h.kdt, on, h.faults + faults)
    else h.(dimTree := on)
  }

  /** `computeNTF()`, as far as it touches the two pointers: with the switch on it builds
      a dimension tree (lines 386-388; an older one is leaked, which is not tracked);
      with the switch off every MTTKRP writes into `ncp_krp` (line 195), a use after free
      once the array has been deleted. */
  function ComputeAsWritten(h: Heap, iters: nat): (r: Heap)
    ensures Extends(h, r) && r.krp == h.krp && r.dimTree == h.dimTree
    ensures h.dimTree ==> r.kdt == Built && r.faults == h.faults
    ensures !h.dimTree ==> r.kdt == h.kdt
    ensures |r.faults| > |h.faults| <==> !h.dimTree && iters > 0 && h.krp == Freed
  {
    if h.dimTree then h.(kdt := Built)
    else if iters > 0 && h.krp == Freed then h.(faults := h.faults + [UseAfterFree(195)])
    else h
  }

  /** `freeMatrices()`, lines 271-282: clears every element of `ncp_krp` (line 273) and
      deletes the array (line 278), whatever its state. */
  function FreeMatricesAsWritten(h: Heap): (r: Heap)
    ensures Extends(h, r) && r.krp == Freed
    ensures h.krp == Live ==> r.faults == h.faults
    ensures h.krp == Freed ==> r.faults == h.faults + [UseAfterFree(273), DoubleFree(278)]
  {
    var faults := if h.krp == Freed then [UseAfterFree(273), DoubleFree(278)] else [];
    Heap(Freed, h.kdt, h.dimTree, h.faults + faults)
  }

  /** The destructor, lines 355-360: `freeMatrices()`, then `delete kdt` when the switch
      is on, whether or not a tree was ever built. */
  function DestroyAsWritten(h: Heap): (r: Heap)
    ensures Extends(h, r)
    ensures h.krp == Live && (!h.dimTree || h.kdt == Built) ==> r.faults == h.faults
    ensures h.dimTree && h.kdt == Unset ==> |r.faults| > 0 && r.faults[|r.faults| - 1] == DeleteUnset(358)
  {
    var h1 := FreeMatricesAsWritten(h);
    if h.dimTree && h.kdt == Unset then h1.(faults := h1.faults + [DeleteUnset(358)]) else h1
  }

  function StepAsWritten(h: Heap, c: Call): (r: Heap)
    ensures Extends(h, r)
  {
    match c
    case SetDimTree(on) => DimTreeAsWritten(h, on)
    case Compute(iters) => ComputeAsWritten(h, iters)
  }

  function RunAsWritten(h: Heap, calls: seq<Call>): (r: Heap)
    ensures Extends(h, r)
  {
    if |calls| == 0 then h else StepAsWritten(RunAsWritten(h, calls[..|calls| - 1]), calls[|calls| - 1])
  }

  /** The faults of a whole lifetime: construction, the calls, destruction. */
  function LifetimeAsWritten(calls: seq<Call>): (faults: seq<Fault>)
  {
    DestroyAsWritten(RunAsWritten(Construct(), calls)).faults
  }

  /** Turning the dimension tree on and destroying the engine: the destructor clears and
      deletes the array `dim_tree` already deleted, then deletes a `kdt` that was never
      assigned. */
  lemma DimTreeThenDestroyFaults()
    ensures LifetimeAsWritten([SetDimTree(true)]) == [UseAfterFree(273), DoubleFree(278), DeleteUnset(358)]
  {
    var h := RunAsWritten(Construct(), [SetDimTree(true)]);
    assert RunAsWritten(Construct(), []) == Construct();
    assert h == Heap(Freed, Unset, true, []);
  }

  /** With a run in between, the tree exists and only the array faults remain. */
  lemma DimTreeComputeDestroyFaults()
    ensures LifetimeAsWritten([SetDimTree(true), Compute(1)]) == [UseAfterFree(273), DoubleFree(278)]
  {
    var calls := [SetDimTree(true), Compute(1)];
    assert calls[..1] == [SetDimTree(true)];
    assert [SetDimTree(true)][..0] == [];
    var h := RunAsWritten(Construct(), calls);
    assert h == Heap(Freed, Built, true, []);
  }

  /** Turning the switch on and off again leaves `ncp_krp` deleted but in use: the next
      run's MTTKRP writes into freed memory. */
  lemma DimTreeToggledFaults()
    ensures RunAsWritten(Construct(), [SetDimTree(true), SetDimTree(false), Compute(1)]).faults == [UseAfterFree(195)]
  {
    var calls := [SetDimTree(true), SetDimTree(false), Compute(1)];
    assert calls[..2] == [SetDimTree(true), SetDimTree(false)];
    assert calls[..2][..1] == [SetDimTree(true)];
    assert [SetDimTree(true)][..0] == [];
  }

  /** A call sequence that never turns the switch on. */
  predicate NeverOn(calls: seq<Call>) {
    forall i :: 0 <= i < |calls| ==> calls[i] != SetDimTree(true)
  }

  /** Without the dimension tree the engine as written has no memory fault. */
  lemma {:induction false} NeverOnIsSafe(calls: seq<Call>)
    requires NeverOn(calls)
    ensures var h := RunAsWritten(Construct(), calls);
            h.krp == Live && !h.dimTree && h.faults == []
    ensures LifetimeAsWritten(calls) == []
  {
    if |calls| > 0 {
      var front := calls[..|calls| - 1];
      assert NeverOn(front) by {
        forall i | 0 <= i < |front| ensures front[i] != SetDimTree(true) {
          assert front[i] == calls[i];
        }
      }
      NeverOnIsSafe(front);
      assert calls[|calls| - 1] != SetDimTree(true);
    }
  }

  // ---- corrected ----

  /** The corrected constructor also sets `kdt` to null. */
  function ConstructFixed(): (h: Heap)
    ensures h.krp == Live && h.kdt == NoTree && !h.dimTree && h.faults == []
  {
    Heap(Live, NoTree, false, [])
  }

  /** The corrected `dim_tree(on)`: turning it on frees a live array and nulls the
      pointer; turning it off again reallocates the array the MTTKRP needs. */
  function DimTreeFixed(h: Heap, on: bool): (r: Heap)
    ensures Extends(h, r) && r.dimTree == on && r.kdt == h.kdt
    ensures h.krp != Freed ==> r.krp != Freed && (r.krp == Live <==> !on)
    ensures h.krp != Freed ==> r.faults == h.faults
  {
    if on then
      var faults := if h.krp == Freed then [UseAfterFree(373), DoubleFree(375)] else [];
      Heap(Null, h.kdt, on, h.faults + faults)
    else if h.krp != Live then Heap(Live, h.kdt, on, h.faults)
    else h.(dimTree := on)
  }

  /** The corrected `freeMatrices()` skips a null array. */
  function FreeMatricesFixed(h: Heap): (r: Heap)
    ensures Extends(h, r) && r.krp != Live
    ensures h.krp != Freed ==> r.faults == h.faults
  {
    if h.krp == Null then h
    else
      var faults := if h.krp == Freed then [UseAfterFree(273), DoubleFree(278)] else [];
      Heap(Freed, h.kdt, h.dimTree, h.faults + faults)
  }

  /** The corrected destructor deletes `kdt` only when it was assigned; deleting null is
      a no-op. */
  function DestroyFixed(h: Heap): (r: Heap)
    ensures Extends(h, r)
    ensures h.krp != Freed && h.kdt != Unset ==> r.faults == h.faults
  {
    var h1 := FreeMatricesFixed(h);
    if h.dimTree && h.kdt == Unset then h1.(faults := h1.faults + [DeleteUnset(358)]) else h1
  }

  function StepFixed(h: Heap, c: Call): (r: Heap)
    ensures Extends(h, r)
  {
    match c
    case SetDimTree(on) => DimTreeFixed(h, on)
    case Compute(iters) => ComputeAsWritten(h, iters)
  }

  function RunFixed(h: Heap, calls: seq<Call>): (r: Heap)
    ensures Extends(h, r)
  {
    if |calls| == 0 then h else StepFixed(RunFixed(h, calls[..|calls| - 1]), calls[|calls| - 1])
  }

  function LifetimeFixed(calls: seq<Call>): (faults: seq<Fault>)
  {
    DestroyFixed(RunFixed(ConstructFixed(), calls)).faults
  }

  /** What the corrected engine keeps true between calls: the array is live exactly when
      the switch is off and null otherwise, the tree pointer is assigned, and nothing has
      faulted. */
  predicate Sound(h: Heap) {
    h.krp != Freed && (h.krp == Live <==> !h.dimTree) && h.kdt != Unset && h.faults == []
  }

  lemma {:induction false} RunFixedSound(calls: seq<Call>)
    ensures Sound(RunFixed(ConstructFixed(), calls))
  {
    if |calls| > 0 {
      RunFixedSound(calls[..|calls| - 1]);
    }
  }

  /** The corrected engine has no memory fault, whatever the calls. */
  lemma FixedNeverFaults(calls: seq<Call>)
    ensures LifetimeFixed(calls) == []
  {
    RunFixedSound(calls);
  }

  /** On the call sequences the engine as written survives, the correction changes
      nothing observable: no faults either way. */
  lemma FixedAgreesWhenNeverOn(calls: seq<Call>)
    requires NeverOn(calls)
    ensures LifetimeFixed(calls) == LifetimeAsWritten(calls)
  {
    NeverOnIsSafe(calls);
    FixedNeverFaults(calls);
  }
}
