/**
 * The rows of the output table. The collected tables are concatenated in
 * traversal order, each row's new index being its position. So every row
 * is a row of one matching operation's table, and every row of such a table
 * is in the output, in cycle order, then operation order, then sample
 * order. The output has as many rows as the matching operations have
 * samples. Every row carries its operation's provenance: the counter, the
 * ambient temperature, the target type and the truncated start time.
 */
module Rows {
  import opened DataModel
  import opened Extractor
  import opened Loader
  import opened Traversal

  /** Where table `k` starts in the concatenation: after the rows of the
      tables before it. */
  function Offset(fs: seq<Frame>, k: nat): nat
    requires k <= |fs|
  {
    |Concat(fs[..k])|
  }

  /** Concatenating two collections one after the other is concatenating
      each and joining the results. */
  lemma {:induction false} ConcatJoin(fs: seq<Frame>, gs: seq<Frame>)
    ensures Concat(fs + gs) == Concat(fs) + Concat(gs)
  {
    if gs == [] {
      assert fs + gs == fs;
    } else {
      var init := gs[..|gs| - 1];
      assert (fs + gs)[..|fs + gs| - 1] == fs + init;
      ConcatJoin(fs, init);
    }
  }

  /** Table `k` starts right after table `k - 1` ends. */
  lemma OffsetNext(fs: seq<Frame>, k: nat)
    requires k < |fs|
    ensures Offset(fs, k + 1) == Offset(fs, k) + |fs[k]|
  {
    assert fs[..k + 1][..k] == fs[..k];
  }

  /** A table ends no later than where any later table starts. */
  lemma {:induction false} OffsetGrows(fs: seq<Frame>, k: nat, l: nat)
    requires k < l <= |fs|
    ensures Offset(fs, k) + |fs[k]| <= Offset(fs, l)
  {
    OffsetNext(fs, l - 1);
    if k < l - 1 {
      OffsetGrows(fs, k, l - 1);
    }
  }

  /** Row `m` of table `k` is in the concatenation, at the table's offset
      plus `m`. */
  lemma ConcatAt(fs: seq<Frame>, k: nat, m: nat)
    requires k < |fs| && m < |fs[k]|
    ensures Offset(fs, k) + m < |Concat(fs)|
    ensures Concat(fs)[Offset(fs, k) + m] == fs[k][m]
  {
    assert fs == fs[..k] + [fs[k]] + fs[k + 1..];
    ConcatJoin(fs[..k] + [fs[k]], fs[k + 1..]);
    ConcatJoin(fs[..k], [fs[k]]);
    assert [fs[k]][..0] == [];
  }

  /** Every row of the concatenation is a row of one of the tables. */
  lemma {:induction false} ConcatCover(fs: seq<Frame>, n: nat)
    requires n < |Concat(fs)|
    ensures exists k, m :: 0 <= k < |fs| && 0 <= m < |fs[k]| && Offset(fs, k) + m == n && Concat(fs)[n] == fs[k][m]
  {
    var init := fs[..|fs| - 1];
    if n < |Concat(init)| {
      ConcatCover(init, n);
      var k, m :| 0 <= k < |init| && 0 <= m < |init[k]| && Offset(init, k) + m == n && Concat(init)[n] == init[k][m];
      assert init[..k] == fs[..k];
      ConcatAt(fs, k, m);
    } else {
      var m := n - |Concat(init)|;
      assert fs[..|fs| - 1] == init;
      ConcatAt(fs, |fs| - 1, m);
    }
  }

  /** The number of rows a matching operation contributes: one per sample of
      its last data entry (none without entries, which a well-formed
      recording excludes). */
  function BlockRows(op: Operation, target: Target): nat
  {
    if op.data == [] then 0 else Height(Kept(op.data[|op.data| - 1], target))
  }

  /** The rows the matching operations among the first `j` of a cycle
      contribute, each counting `size` rows. */
  function CycleRows(ops: Cycle, j: nat, target: Target, size: (Operation, Target) -> nat): nat
    requires j <= |ops|
  {
    if j == 0 then 0
    else CycleRows(ops, j - 1, target, size) + if Matches(ops[j - 1], target) then size(ops[j - 1], target) else 0
  }

  /** The rows the matching operations of the first `i` cycles contribute. */
  function DocRows(doc: Document, i: nat, target: Target, size: (Operation, Target) -> nat): nat
    requires i <= |doc|
  {
    if i == 0 then 0
    else DocRows(doc, i - 1, target, size) + CycleRows(doc[i - 1], |doc[i - 1]|, target, size)
  }

  /** Each table `parse` produces has `size` rows. */
  ghost predicate Sized(target: Target, parse: (Operation, nat, Target) --> Result<Frame>, size: (Operation, Target) -> nat)
  {
    forall op, id :: parse.requires(op, id, target) && parse(op, id, target).Ok? ==>
      |parse(op, id, target).value| == size(op, target)
  }

  /** A cycle's tables hold the rows of its matching operations. */
  lemma {:induction false} CycleRowCount(ops: Cycle, j: nat, target: Target,
                                         parse: (Operation, nat, Target) --> Result<Frame>, size: (Operation, Target) -> nat)
    requires j <= |ops| && Parses(ops, target, parse) && Sized(target, parse, size)
    requires CycleCollect(ops, j, target, parse).Ok?
    ensures |Concat(CycleCollect(ops, j, target, parse).value)| == CycleRows(ops, j, target, size)
  {
    if j > 0 {
      var before := CycleCollect(ops, j - 1, target, parse).value;
      CycleRowCount(ops, j - 1, target, parse, size);
      if Matches(ops[j - 1], target) {
        var t := parse(ops[j - 1], MatchCount(ops, j - 1, target), target).value;
        ConcatJoin(before, [t]);
        assert [t][..0] == [];
      } else {
        assert before + [] == before;
      }
    }
  }

  /** The recording's tables hold the rows of all its matching operations. */
  lemma {:induction false} DocRowCount(doc: Document, i: nat, target: Target,
                                       parse: (Operation, nat, Target) --> Result<Frame>, size: (Operation, Target) -> nat)
    requires i <= |doc| && DocParses(doc, target, parse) && Sized(target, parse, size)
    requires DocCollect(doc, i, target, parse).Ok?
    ensures |Concat(DocCollect(doc, i, target, parse).value)| == DocRows(doc, i, target, size)
  {
    if i > 0 {
      assert Parses(doc[i - 1], target, parse);
      var before := DocCollect(doc, i - 1, target, parse).value;
      var last := CycleCollect(doc[i - 1], |doc[i - 1]|, target, parse).value;
      DocRowCount(doc, i - 1, target, parse, size);
      CycleRowCount(doc[i - 1], |doc[i - 1]|, target, parse, size);
      ConcatJoin(before, last);
    }
  }

  /** Each table the loader builds has one row per sample of the
      operation's last data entry. */
  lemma OperationFrameSized(target: Target)
    ensures Sized(target, OperationFrame, BlockRows)
  {
    forall op, id | Ready(op) && OperationFrame(op, id, target).Ok?
      ensures |OperationFrame(op, id, target).value| == BlockRows(op, target)
    {
    }
  }

  /** A successful load is the concatenation of the collected tables, of
      which there is at least one. */
  lemma LoadConcat(doc: Document, target: Target)
    requires WellFormed(doc, target) && Load(doc, target).Ok?
    ensures DocFrames(doc, |doc|, target).Ok? && DocFrames(doc, |doc|, target).value != []
    ensures Load(doc, target).value == Concat(DocFrames(doc, |doc|, target).value)
  {
  }

  /** Row count (lines 45, 48): the output has one row per sample of the
      last data entry of every operation of the target type. */
  lemma LoadRowCount(doc: Document, target: Target)
    requires WellFormed(doc, target) && Load(doc, target).Ok?
    ensures |Load(doc, target).value| == DocRows(doc, |doc|, target, BlockRows)
  {
    WellFormedParses(doc, target);
    OperationFrameSized(target);
    LoadConcat(doc, target);
    DocRowCount(doc, |doc|, target, OperationFrame, BlockRows);
  }

  /** Where row `m` of the table of matching operation `p` of cycle `c`
      lands in the concatenation of the collected tables. */
  function CollectRowIndex(doc: Document, c: nat, p: nat, m: nat, target: Target,
                           parse: (Operation, nat, Target) --> Result<Frame>): nat
    requires DocParses(doc, target, parse) && c < |doc| && p < |doc[c]| && Matches(doc[c][p], target)
    requires DocCollect(doc, |doc|, target, parse).Ok?
  {
    DocTableAt(doc, |doc|, c, p, target, parse);
    Offset(DocCollect(doc, |doc|, target, parse).value, TableIndex(doc, c, p, target)) + m
  }

  /** Every row of every matching operation's table is in the concatenation,
      at its row index. */
  lemma CollectRowAt(doc: Document, c: nat, p: nat, m: nat, target: Target,
                     parse: (Operation, nat, Target) --> Result<Frame>)
    requires DocParses(doc, target, parse) && c < |doc| && p < |doc[c]| && Matches(doc[c][p], target)
    requires DocCollect(doc, |doc|, target, parse).Ok?
    requires parse(doc[c][p], MatchCount(doc[c], p, target), target).Ok?
    requires m < |parse(doc[c][p], MatchCount(doc[c], p, target), target).value|
    ensures CollectRowIndex(doc, c, p, m, target, parse) < |Concat(DocCollect(doc, |doc|, target, parse).value)|
    ensures Concat(DocCollect(doc, |doc|, target, parse).value)[CollectRowIndex(doc, c, p, m, target, parse)] ==
      parse(doc[c][p], MatchCount(doc[c], p, target), target).value[m]
  {
    DocTableAt(doc, |doc|, c, p, target, parse);
    ConcatAt(DocCollect(doc, |doc|, target, parse).value, TableIndex(doc, c, p, target), m);
  }

  /** Every row of the concatenation is a row of a matching operation's
      table, at that row's index. */
  lemma CollectRowFrom(doc: Document, n: nat, target: Target, parse: (Operation, nat, Target) --> Result<Frame>)
    requires DocParses(doc, target, parse) && DocCollect(doc, |doc|, target, parse).Ok?
    requires n < |Concat(DocCollect(doc, |doc|, target, parse).value)|
    ensures exists c, p, m ::
      0 <= c < |doc| && 0 <= p < |doc[c]| && Matches(doc[c][p], target) &&
      parse(doc[c][p], MatchCount(doc[c], p, target), target).Ok? &&
      0 <= m < |parse(doc[c][p], MatchCount(doc[c], p, target), target).value| &&
      CollectRowIndex(doc, c, p, m, target, parse) == n &&
      Concat(DocCollect(doc, |doc|, target, parse).value)[n] == parse(doc[c][p], MatchCount(doc[c], p, target), target).value[m]
  {
    var fs := DocCollect(doc, |doc|, target, parse).value;
    ConcatCover(fs, n);
    var k, m :| 0 <= k < |fs| && 0 <= m < |fs[k]| && Offset(fs, k) + m == n && Concat(fs)[n] == fs[k][m];
    DocTableFrom(doc, |doc|, k, target, parse);
    var c, p :| 0 <= c < |doc| && 0 <= p < |doc[c]| && Matches(doc[c][p], target) && TableIndex(doc, c, p, target) == k;
    DocTableAt(doc, |doc|, c, p, target, parse);
    assert CollectRowIndex(doc, c, p, m, target, parse) == n;
  }

  /** Rows of a matching operation earlier in the traversal come before
      those of a later one, and an operation's rows keep their order. */
  lemma CollectRowOrder(doc: Document, c: nat, p: nat, m: nat, d: nat, q: nat, m': nat, target: Target,
                        parse: (Operation, nat, Target) --> Result<Frame>)
    requires DocParses(doc, target, parse) && DocCollect(doc, |doc|, target, parse).Ok?
    requires c < |doc| && p < |doc[c]| && Matches(doc[c][p], target)
    requires d < |doc| && q < |doc[d]| && Matches(doc[d][q], target)
    requires parse(doc[c][p], MatchCount(doc[c], p, target), target).Ok?
    requires m < |parse(doc[c][p], MatchCount(doc[c], p, target), target).value|
    requires c < d || (c == d && p < q) || (c == d && p == q && m < m')
    ensures CollectRowIndex(doc, c, p, m, target, parse) < CollectRowIndex(doc, d, q, m', target, parse)
  {
    DocTableAt(doc, |doc|, c, p, target, parse);
    DocTableAt(doc, |doc|, d, q, target, parse);
    if c < d || (c == d && p < q) {
      TableIndexOrder(doc, c, p, d, q, target);
      OffsetGrows(DocCollect(doc, |doc|, target, parse).value, TableIndex(doc, c, p, target), TableIndex(doc, d, q, target));
    }
  }

  /** Where row `m` of matching operation `p` of cycle `c` lands in the
      loader's output. */
  function RowIndex(doc: Document, c: nat, p: nat, m: nat, target: Target): nat
    requires WellFormed(doc, target) && c < |doc| && p < |doc[c]| && Matches(doc[c][p], target)
    requires DocFrames(doc, |doc|, target).Ok?
  {
    WellFormedParses(doc, target);
    CollectRowIndex(doc, c, p, m, target, OperationFrame)
  }

  /** Completeness (lines 19-21, 45, 48): every sample of the last data
      entry of every matching operation gives a row of the output, at its
      row index: that operation's enriched row. */
  lemma LoadRowAt(doc: Document, c: nat, p: nat, m: nat, target: Target)
    requires WellFormed(doc, target) && c < |doc| && p < |doc[c]| && Matches(doc[c][p], target)
    requires Load(doc, target).Ok? && m < BlockRows(doc[c][p], target)
    ensures OperationFrame(doc[c][p], MatchCount(doc[c], p, target), target).Ok?
    ensures m < |OperationFrame(doc[c][p], MatchCount(doc[c], p, target), target).value|
    ensures RowIndex(doc, c, p, m, target) < |Load(doc, target).value|
    ensures Load(doc, target).value[RowIndex(doc, c, p, m, target)] ==
      OperationFrame(doc[c][p], MatchCount(doc[c], p, target), target).value[m]
  {
    LoadConcat(doc, target);
    LoadTableAt(doc, c, p, target);
    WellFormedParses(doc, target);
    CollectRowAt(doc, c, p, m, target, OperationFrame);
  }

  /** Soundness (lines 22-24, 45, 48): every output row is a row of a
      matching operation's enriched table, at that row's index. */
  lemma LoadRowFrom(doc: Document, n: nat, target: Target)
    requires WellFormed(doc, target) && Load(doc, target).Ok? && n < |Load(doc, target).value|
    ensures exists c, p, m ::
      0 <= c < |doc| && 0 <= p < |doc[c]| && Matches(doc[c][p], target) &&
      OperationFrame(doc[c][p], MatchCount(doc[c], p, target), target).Ok? &&
      0 <= m < |OperationFrame(doc[c][p], MatchCount(doc[c], p, target), target).value| &&
      RowIndex(doc, c, p, m, target) == n &&
      Load(doc, target).value[n] == OperationFrame(doc[c][p], MatchCount(doc[c], p, target), target).value[m]
  {
    LoadConcat(doc, target);
    WellFormedParses(doc, target);
    CollectRowFrom(doc, n, target, OperationFrame);
  }

  /** Lines 22-24, 42: every output row's type column holds the target type. */
  lemma LoadRowType(doc: Document, n: nat, target: Target)
    requires WellFormed(doc, target) && Load(doc, target).Ok? && n < |Load(doc, target).value|
    ensures TypeName in Load(doc, target).value[n]
    ensures Load(doc, target).value[n][TypeName] == Label(TargetName(target))
  {
    LoadRowFrom(doc, n, target);
    var c, p, m :|
      0 <= c < |doc| && 0 <= p < |doc[c]| && Matches(doc[c][p], target) &&
      OperationFrame(doc[c][p], MatchCount(doc[c], p, target), target).Ok? &&
      0 <= m < |OperationFrame(doc[c][p], MatchCount(doc[c], p, target), target).value| &&
      RowIndex(doc, c, p, m, target) == n &&
      Load(doc, target).value[n] == OperationFrame(doc[c][p], MatchCount(doc[c], p, target), target).value[m];
    OperationRowProvenance(doc[c][p], MatchCount(doc[c], p, target), target, m);
  }

  /** Traversal order (lines 19-21, 45, 48): rows of a matching operation
      earlier in the recording (an earlier cycle, or earlier in the same
      cycle) come before those of a later one, and an operation's rows keep
      their sample order. */
  lemma RowIndexOrder(doc: Document, c: nat, p: nat, m: nat, d: nat, q: nat, m': nat, target: Target)
    requires WellFormed(doc, target) && DocFrames(doc, |doc|, target).Ok?
    requires c < |doc| && p < |doc[c]| && Matches(doc[c][p], target)
    requires d < |doc| && q < |doc[d]| && Matches(doc[d][q], target)
    requires m < BlockRows(doc[c][p], target)
    requires c < d || (c == d && p < q) || (c == d && p == q && m < m')
    ensures RowIndex(doc, c, p, m, target) < RowIndex(doc, d, q, m', target)
  {
    LoadTableAt(doc, c, p, target);
    WellFormedParses(doc, target);
    CollectRowOrder(doc, c, p, m, d, q, m', target, OperationFrame);
  }

  /** A successful operation table is its last data entry's table with the
      provenance columns set. */
  lemma OperationFrameEnriched(op: Operation, id: nat, target: Target)
    requires Ready(op) && OperationFrame(op, id, target).Ok?
    ensures Extract(LastBlock(op), target).Ok?
    ensures OperationFrame(op, id, target).value == Enrich(Extract(LastBlock(op), target).value, id, op)
  {
  }

  /** Lines 27-43: row `m` of a matching operation's table has as columns
      the last data entry's field names plus the four provenance columns,
      and these hold the counter, the ambient temperature, the target type
      and the truncated start time. */
  lemma OperationRowProvenance(op: Operation, id: nat, target: Target, m: nat)
    requires Ready(op) && Matches(op, target)
    requires OperationFrame(op, id, target).Ok? && m < |OperationFrame(op, id, target).value|
    ensures OperationFrame(op, id, target).value[m].Keys == Names(LastBlock(op)) + ProvenanceNames
    ensures OperationFrame(op, id, target).value[m][OperationIdName] == Counter(id)
    ensures OperationFrame(op, id, target).value[m][TemperatureName] == Sample(op.ambientTemperature)
    ensures OperationFrame(op, id, target).value[m][TypeName] == Label(TargetName(target))
    ensures OperationFrame(op, id, target).value[m][StartTimeName] == Stamp(StartTime(op.time))
  {
    OperationFrameEnriched(op, id, target);
    var t := Extract(LastBlock(op), target).value;
    EnrichRow(t, id, op, m);
    ExtractColumns(LastBlock(op), target, m);
  }

  /** Lines 27-31, 33-37: in row `m` of a matching operation's table, every
      kept field's column (unless a provenance column replaced it) holds
      that field's sample `m`, verbatim. */
  lemma OperationRowVerbatim(op: Operation, id: nat, target: Target, m: nat, f: Field)
    requires Ready(op) && DistinctNames(LastBlock(op))
    requires OperationFrame(op, id, target).Ok? && m < |OperationFrame(op, id, target).value|
    requires f in Kept(LastBlock(op), target) && f.name !in ProvenanceNames
    ensures m < |f.samples|
    ensures f.name in OperationFrame(op, id, target).value[m]
    ensures OperationFrame(op, id, target).value[m][f.name] == Sample(f.samples[m])
  {
    OperationFrameEnriched(op, id, target);
    var t := Extract(LastBlock(op), target).value;
    ExtractVerbatim(LastBlock(op), target, m, f);
    EnrichKeeps(t, id, op, m, f.name);
  }

  /** Line 38: in a discharge table every row's `Capacity` column holds the
      last data entry's first capacity value. */
  lemma OperationRowCapacity(op: Operation, id: nat, m: nat, f: Field)
    requires Ready(op) && DistinctNames(LastBlock(op))
    requires OperationFrame(op, id, Discharge).Ok? && m < |OperationFrame(op, id, Discharge).value|
    requires f in LastBlock(op) && f.name == CapacityName
    ensures f.samples != []
    ensures CapacityName in OperationFrame(op, id, Discharge).value[m]
    ensures OperationFrame(op, id, Discharge).value[m][CapacityName] == Sample(f.samples[0])
  {
    OperationFrameEnriched(op, id, Discharge);
    var t := Extract(LastBlock(op), Discharge).value;
    EnrichRow(t, id, op, m);
    ExtractCapacity(LastBlock(op), m, f);
    ExtractColumns(LastBlock(op), Discharge, m);
  }

  /** Line 48: the load fails for want of tables exactly when no operation
      has the target type. */
  lemma LoadEmpty(doc: Document, target: Target)
    requires WellFormed(doc, target)
    ensures Load(doc, target) == Err(NoMatchingOperations) <==> NoMatchBefore(doc, |doc|, target)
  {
    WellFormedParses(doc, target);
    CountBeforeZero(doc, |doc|, target);
    if NoMatchBefore(doc, |doc|, target) {
      DocCollectNone(doc, |doc|, target, OperationFrame);
    } else if DocFrames(doc, |doc|, target).Ok? {
      var c, p :| 0 <= c < |doc| && 0 <= p < |doc[c]| && Matches(doc[c][p], target);
      LoadTableAt(doc, c, p, target);
    } else {
      DocCollectFails(doc, |doc|, target, OperationFrame);
    }
  }

  /** Fail fast (lines 19-45): any other failure is that of the first
      operation of the target type, in cycle order and then operation
      order, whose data entries fail to extract; every one before it
      extracts. */
  lemma LoadFailure(doc: Document, target: Target)
    requires WellFormed(doc, target) && Load(doc, target).Err?
    requires Load(doc, target).error != NoMatchingOperations
    ensures exists c, p ::
      0 <= c < |doc| && 0 <= p < |doc[c]| && Matches(doc[c][p], target) &&
      OperationFrame(doc[c][p], MatchCount(doc[c], p, target), target) == Load(doc, target) &&
      forall d, q ::
        0 <= d < |doc| && 0 <= q < |doc[d]| && (d < c || (d == c && q < p)) && Matches(doc[d][q], target) ==>
          OperationFrame(doc[d][q], MatchCount(doc[d], q, target), target).Ok?
  {
    WellFormedParses(doc, target);
    DocCollectFails(doc, |doc|, target, OperationFrame);
  }
}
