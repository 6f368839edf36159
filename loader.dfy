/**
 * The traversal of a recording: the type filter with its per-cycle
 * counter, the per-operation extraction and provenance columns, and the
 * final concatenation. The functions are the specification, written in the shape of
 * the loader's loops; the methods walk the recording the way the loader does
 * and are proved to compute exactly that specification.
 */
module Loader {
  import opened DataModel
  import opened Extractor

  /** An operation the extraction can handle: it has a data entry. */
  predicate Ready(op: Operation)
  {
    |op.data| > 0
  }

  /** Every operation of the requested kind in this cycle has a data entry. */
  predicate CycleReady(ops: Cycle, target: Target)
  {
    forall p :: 0 <= p < |ops| && Matches(ops[p], target) ==> Ready(ops[p])
  }

  /** What the load expects of a recording: every operation of the requested
      kind has at least one data entry. */
  predicate WellFormed(doc: Document, target: Target)
  {
    forall c :: 0 <= c < |doc| ==> CycleReady(doc[c], target)
  }

  /** Lines 26-38, for any way of extracting one entry: the data entries
      are extracted in turn and each table replaces the previous one, so
      after the first `k` entries the table kept is the `k`-th one's; the
      first entry that fails aborts. */
  function LastOf(data: seq<Block>, k: nat, target: Target, extract: (Block, Target) -> Result<Frame>): (r: Result<Frame>)
    requires 0 < k <= |data|
    ensures r.Ok? ==> r == extract(data[k - 1], target)
  {
    if k == 1 then extract(data[0], target)
    else
      match LastOf(data, k - 1, target, extract)
      case Err(e) => Err(e)
      case Ok(_) => extract(data[k - 1], target)
  }

  /** Once the entries up to `n` have failed, the first failure stands:
      later entries are never looked at. */
  lemma {:induction false} LastOfFailEarly(data: seq<Block>, n: nat, m: nat, target: Target,
                                           extract: (Block, Target) -> Result<Frame>)
    requires 0 < n <= m <= |data|
    requires LastOf(data, n, target, extract).Err?
    ensures LastOf(data, m, target, extract) == LastOf(data, n, target, extract)
  {
    if n < m {
      LastOfFailEarly(data, n, m - 1, target, extract);
    }
  }

  /** Last wins: the entries' tables all exist exactly when each entry
      extracts; otherwise the failure reported is that of the first entry
      that fails. */
  lemma {:induction false} LastOfWins(data: seq<Block>, k: nat, target: Target, extract: (Block, Target) -> Result<Frame>)
    requires 0 < k <= |data|
    ensures LastOf(data, k, target, extract).Ok? <==> forall i :: 0 <= i < k ==> extract(data[i], target).Ok?
    ensures LastOf(data, k, target, extract).Err? ==>
      exists i :: 0 <= i < k && LastOf(data, k, target, extract) == extract(data[i], target) &&
        forall h :: 0 <= h < i ==> extract(data[h], target).Ok?
  {
    if k > 1 {
      LastOfWins(data, k - 1, target, extract);
    }
  }

  /** The loader's own loop over the data entries, each extracted by
      `Extract`. */
  function LastExtract(data: seq<Block>, k: nat, target: Target): (r: Result<Frame>)
    requires 0 < k <= |data|
    ensures r.Ok? ==> r == Extract(data[k - 1], target)
    ensures r.Err? ==> r.error != NoMatchingOperations
  {
    LastOfWins(data, k, target, Extract);
    LastOf(data, k, target, Extract)
  }

  /** The loader's loop: once an entry has failed, the failure stands. */
  lemma LastExtractFailEarly(data: seq<Block>, n: nat, m: nat, target: Target)
    requires 0 < n <= m <= |data|
    requires LastExtract(data, n, target).Err?
    ensures LastExtract(data, m, target) == LastExtract(data, n, target)
  {
    LastOfFailEarly(data, n, m, target, Extract);
  }

  /** The loader's loop keeps the last entry's table, or reports the first
      entry that fails. */
  lemma LastExtractWins(data: seq<Block>, k: nat, target: Target)
    requires 0 < k <= |data|
    ensures LastExtract(data, k, target).Ok? <==> forall i :: 0 <= i < k ==> Extract(data[i], target).Ok?
    ensures LastExtract(data, k, target).Err? ==>
      exists i :: 0 <= i < k && LastExtract(data, k, target) == Extract(data[i], target) &&
        forall h :: 0 <= h < i ==> Extract(data[h], target).Ok?
  {
    LastOfWins(data, k, target, Extract);
  }

  /** The data entry whose table an operation keeps: its last one. */
  function LastBlock(op: Operation): Block
    requires Ready(op)
  {
    op.data[|op.data| - 1]
  }

  /** One matching operation's enriched table (lines 26-43): one row per
      sample of its last data entry. */
  function OperationFrame(op: Operation, id: nat, target: Target): (r: Result<Frame>)
    requires Ready(op)
    ensures r.Ok? ==> |r.value| == Height(Kept(LastBlock(op), target))
    ensures r.Err? ==> r.error != NoMatchingOperations
  {
    match LastExtract(op.data, |op.data|, target)
    case Err(e) => Err(e)
    case Ok(t) => Ok(Enrich(t, id, op))
  }

  /** Collecting tables in order: the first failure stands, otherwise the
      tables of the second part follow those of the first. */
  function Then(first: Result<seq<Frame>>, second: Result<seq<Frame>>): (r: Result<seq<Frame>>)
  {
    match first
    case Err(_) => first
    case Ok(fs) =>
      match second
      case Err(_) => second
      case Ok(gs) => Ok(fs + gs)
  }

  /** One table as a collection of one. */
  function Single(r: Result<Frame>): Result<seq<Frame>>
  {
    match r
    case Err(e) => Err(e)
    case Ok(f) => Ok([f])
  }

  /** The value of the per-cycle counter on reaching operation `j`: the number
      of operations of the target kind before it in the cycle. */
  function MatchCount(ops: Cycle, j: nat, target: Target): (n: nat)
    requires j <= |ops|
    ensures n <= j
  {
    if j == 0 then 0
    else MatchCount(ops, j - 1, target) + if Matches(ops[j - 1], target) then 1 else 0
  }

  /** Every operation of the target kind in this cycle can be parsed. */
  ghost predicate Parses(ops: Cycle, target: Target, parse: (Operation, nat, Target) --> Result<Frame>)
  {
    forall p, id :: 0 <= p < |ops| && Matches(ops[p], target) ==> parse.requires(ops[p], id, target)
  }

  /** The same for every cycle of a recording. */
  ghost predicate DocParses(doc: Document, target: Target, parse: (Operation, nat, Target) --> Result<Frame>)
  {
    forall c :: 0 <= c < |doc| ==> Parses(doc[c], target, parse)
  }

  /** The tables collected from the first `j` operations of a cycle when
      each operation of the target kind is turned into a table by `parse`,
      given its operation_id: one per such operation, numbered by the
      counter, the first failure aborting. The traversal does not depend on
      how an operation is parsed; the loader's own is `OperationFrame`. */
  function CycleCollect(ops: Cycle, j: nat, target: Target, parse: (Operation, nat, Target) --> Result<Frame>)
    : (r: Result<seq<Frame>>)
    requires j <= |ops| && Parses(ops, target, parse)
  {
    if j == 0 then Ok([])
    else
      var step :=
        if Matches(ops[j - 1], target)
        then Single(parse(ops[j - 1], MatchCount(ops, j - 1, target), target))
        else Ok([]);
      Then(CycleCollect(ops, j - 1, target, parse), step)
  }

  /** The tables collected from the first `i` cycles, cycle after cycle. */
  function DocCollect(doc: Document, i: nat, target: Target, parse: (Operation, nat, Target) --> Result<Frame>)
    : (r: Result<seq<Frame>>)
    requires i <= |doc| && DocParses(doc, target, parse)
  {
    if i == 0 then Ok([])
    else Then(DocCollect(doc, i - 1, target, parse), CycleCollect(doc[i - 1], |doc[i - 1]|, target, parse))
  }

  /** The loader's tables from the first `j` operations of a cycle. */
  function CycleFrames(ops: Cycle, j: nat, target: Target): (r: Result<seq<Frame>>)
    requires j <= |ops| && CycleReady(ops, target)
  {
    CycleCollect(ops, j, target, OperationFrame)
  }

  /** The loader's tables from the first `i` cycles. */
  function DocFrames(doc: Document, i: nat, target: Target): (r: Result<seq<Frame>>)
    requires i <= |doc| && WellFormed(doc, target)
  {
    WellFormedParses(doc, target);
    DocCollect(doc, i, target, OperationFrame)
  }

  /** In a well-formed recording the loader can parse every operation of
      the target kind. */
  lemma WellFormedParses(doc: Document, target: Target)
    requires WellFormed(doc, target)
    ensures DocParses(doc, target, OperationFrame)
  {
    forall c | 0 <= c < |doc|
      ensures Parses(doc[c], target, OperationFrame)
    {
      assert CycleReady(doc[c], target);
    }
  }

  /** Row-wise concatenation: the rows of each table in turn, each row's new
      index being its position. */
  function Concat(fs: seq<Frame>): (rows: Frame)
    ensures forall k :: 0 <= k < |fs| ==> |fs[k]| <= |rows|
  {
    if fs == [] then [] else Concat(fs[..|fs| - 1]) + fs[|fs| - 1]
  }

  /** Line 48: concatenation of the collected tables, which fails when there
      are none. */
  function Assemble(fs: seq<Frame>): (r: Result<Frame>)
    ensures r.Err? <==> fs == []
    ensures r.Err? ==> r.error == NoMatchingOperations
  {
    if fs == [] then Err(NoMatchingOperations) else Ok(Concat(fs))
  }

  /** The whole load: the output table of the recording for the target kind,
      or the failure that aborts it. */
  function Load(doc: Document, target: Target): (r: Result<Frame>)
    requires WellFormed(doc, target)
  {
    match DocFrames(doc, |doc|, target)
    case Err(e) => Err(e)
    case Ok(fs) => Assemble(fs)
  }

  /** Once a cycle's traversal has failed, the failure stands. */
  lemma {:induction false} CycleFailEarly(ops: Cycle, j: nat, k: nat, target: Target)
    requires j <= k <= |ops| && CycleReady(ops, target)
    requires CycleFrames(ops, j, target).Err?
    ensures CycleFrames(ops, k, target) == CycleFrames(ops, j, target)
  {
    if j < k {
      CycleFailEarly(ops, j, k - 1, target);
    }
  }

  /** Once the traversal of the recording has failed, the failure stands. */
  lemma {:induction false} DocFailEarly(doc: Document, i: nat, k: nat, target: Target)
    requires i <= k <= |doc| && WellFormed(doc, target)
    requires DocFrames(doc, i, target).Err?
    ensures DocFrames(doc, k, target) == DocFrames(doc, i, target)
  {
    if i < k {
      DocFailEarly(doc, i, k - 1, target);
    }
  }

  /** Lines 26-38: extract every data entry of an operation in turn, each
      table replacing the previous one; the first failure aborts. */
  method ExtractEntries(data: seq<Block>, target: Target) returns (r: Result<Frame>)
    requires 0 < |data|
    ensures r == LastExtract(data, |data|, target)
  {
    var operationData: Frame := [];
    var k := 0;
    while k < |data|
      invariant 0 <= k <= |data|
      invariant 0 < k ==> LastExtract(data, k, target) == Ok(operationData)
    {
      var extracted := Extract(data[k], target);
      if extracted.Err? {
        assert LastExtract(data, k + 1, target) == extracted;
        LastExtractFailEarly(data, k + 1, |data|, target);
        return extracted;
      }
      operationData := extracted.value;
      k := k + 1;
    }
    r := Ok(operationData);
  }

  /** Lines 26-43, one matching operation: the table its data entries leave,
      with the four provenance columns set on it. */
  method ParseOperation(operation: Operation, operationId: nat, target: Target) returns (r: Result<Frame>)
    requires Ready(operation)
    ensures r == OperationFrame(operation, operationId, target)
  {
    r := ExtractEntries(operation.data, target);
    if r.Err? {
      return;
    }
    var operationData := r.value;
    operationData := Broadcast(operationData, OperationIdName, Counter(operationId));
    operationData := Broadcast(operationData, TemperatureName, Sample(operation.ambientTemperature));
    operationData := Broadcast(operationData, TypeName, Label(operation.kind));
    operationData := Broadcast(operationData, StartTimeName, Stamp(StartTime(operation.time)));
    r := Ok(operationData);
  }

  /** Lines 19-46, one cycle: the counter starts at 0; every operation of
      the target kind is parsed with the counter as its operation_id, its
      table appended to those collected, and the counter moved on. */
  method LoadCycle(cycle: Cycle, target: Target, parsed: seq<Frame>) returns (r: Result<seq<Frame>>)
    requires CycleReady(cycle, target)
    ensures r == Then(Ok(parsed), CycleFrames(cycle, |cycle|, target))
  {
    var collected := parsed;
    ghost var inCycle: seq<Frame> := [];
    var operationId := 0;
    var j := 0;
    while j < |cycle|
      invariant 0 <= j <= |cycle|
      invariant operationId == MatchCount(cycle, j, target)
      invariant CycleFrames(cycle, j, target) == Ok(inCycle)
      invariant collected == parsed + inCycle
    {
      var operation := cycle[j];
      if operation.kind == TargetName(target) {
        var operationData := ParseOperation(operation, operationId, target);
        if operationData.Err? {
          CycleFailEarly(cycle, j + 1, |cycle|, target);
          return Err(operationData.error);
        }
        collected := collected + [operationData.value];
        inCycle := inCycle + [operationData.value];
        operationId := operationId + 1;
      } else {
        assert inCycle + [] == inCycle;
      }
      j := j + 1;
    }
    r := Ok(collected);
  }

  /** load_data (lines 18-48): walk the cycles in order, collecting the
      tables of the operations of the target kind; concatenate them. */
  method LoadData(doc: Document, target: Target) returns (result: Result<Frame>)
    requires WellFormed(doc, target)
    ensures result == Load(doc, target)
  {
    var parsed: seq<Frame> := [];
    var i := 0;
    while i < |doc|
      invariant 0 <= i <= |doc|
      invariant DocFrames(doc, i, target) == Ok(parsed)
    {
      var cycleData := LoadCycle(doc[i], target, parsed);
      if cycleData.Err? {
        DocFailEarly(doc, i + 1, |doc|, target);
        return Err(cycleData.error);
      }
      parsed := cycleData.value;
      i := i + 1;
    }
    result := Assemble(parsed);
  }
}
