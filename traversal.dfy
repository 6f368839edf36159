/**
 * Where each collected table comes from. The loader collects one table per
 * operation of the target kind, in traversal order; the table of operation
 * `p` of cycle `c` sits at index `TableIndex(doc, c, p, target)`: the number
 * of operations of that kind in the cycles before, plus its own
 * operation_id. Every collected table is one of these, and the index grows
 * with the traversal order.
 */
module Traversal {
  import opened DataModel
  import opened Loader

  /** The number of operations of the target kind in the first `c` cycles. */
  function CountBefore(doc: Document, c: nat, target: Target): nat
    requires c <= |doc|
  {
    if c == 0 then 0
    else CountBefore(doc, c - 1, target) + MatchCount(doc[c - 1], |doc[c - 1]|, target)
  }

  /** Where the table of operation `p` of cycle `c` is collected. */
  function TableIndex(doc: Document, c: nat, p: nat, target: Target): nat
    requires c < |doc| && p <= |doc[c]|
  {
    CountBefore(doc, c, target) + MatchCount(doc[c], p, target)
  }

  /** The counter never goes back, and a matching operation moves it on. */
  lemma {:induction false} MatchCountGrows(ops: Cycle, p: nat, q: nat, target: Target)
    requires p <= q <= |ops|
    ensures MatchCount(ops, p, target) <= MatchCount(ops, q, target)
    ensures p < q && Matches(ops[p], target) ==> MatchCount(ops, p, target) < MatchCount(ops, q, target)
  {
    if p < q {
      MatchCountGrows(ops, p, q - 1, target);
    }
  }

  /** Every counter value below the cycle's count is the operation_id of a
      matching operation: the ids of a cycle are 0, 1, 2, ... with no gap. */
  lemma {:induction false} MatchCountHits(ops: Cycle, j: nat, k: nat, target: Target)
    requires j <= |ops| && k < MatchCount(ops, j, target)
    ensures exists p :: 0 <= p < j && Matches(ops[p], target) && MatchCount(ops, p, target) == k
  {
    if k < MatchCount(ops, j - 1, target) {
      MatchCountHits(ops, j - 1, k, target);
    } else {
      assert Matches(ops[j - 1], target) && MatchCount(ops, j - 1, target) == k;
    }
  }

  /** A cycle that collects its tables collects one per matching operation. */
  lemma {:induction false} CycleTableCount(ops: Cycle, j: nat, target: Target, parse: (Operation, nat, Target) --> Result<Frame>)
    requires j <= |ops| && Parses(ops, target, parse) && CycleCollect(ops, j, target, parse).Ok?
    ensures |CycleCollect(ops, j, target, parse).value| == MatchCount(ops, j, target)
  {
    if j > 0 {
      CycleTableCount(ops, j - 1, target, parse);
    }
  }

  /** The table a cycle collects for its matching operation `p` is that
      operation's table, numbered with its operation_id, at that id. */
  lemma {:induction false} CycleTableAt(ops: Cycle, j: nat, p: nat, target: Target, parse: (Operation, nat, Target) --> Result<Frame>)
    requires p < j <= |ops| && Parses(ops, target, parse) && Matches(ops[p], target)
    requires CycleCollect(ops, j, target, parse).Ok?
    ensures parse.requires(ops[p], MatchCount(ops, p, target), target)
    ensures parse(ops[p], MatchCount(ops, p, target), target).Ok?
    ensures MatchCount(ops, p, target) < |CycleCollect(ops, j, target, parse).value|
    ensures CycleCollect(ops, j, target, parse).value[MatchCount(ops, p, target)] ==
      parse(ops[p], MatchCount(ops, p, target), target).value
  {
    CycleTableCount(ops, j - 1, target, parse);
    if p < j - 1 {
      CycleTableAt(ops, j - 1, p, target, parse);
    }
  }

  /** The recording's collection has one table per matching operation. */
  lemma {:induction false} DocTableCount(doc: Document, i: nat, target: Target, parse: (Operation, nat, Target) --> Result<Frame>)
    requires i <= |doc| && DocParses(doc, target, parse)
    requires DocCollect(doc, i, target, parse).Ok?
    ensures |DocCollect(doc, i, target, parse).value| == CountBefore(doc, i, target)
  {
    if i > 0 {
      DocTableCount(doc, i - 1, target, parse);
      assert Parses(doc[i - 1], target, parse);
      CycleTableCount(doc[i - 1], |doc[i - 1]|, target, parse);
    }
  }

  /** The tables of cycle `c` are collected one after the other, starting
      after the tables of the cycles before it. */
  lemma {:induction false} DocCycleTable(doc: Document, i: nat, c: nat, k: nat, target: Target, parse: (Operation, nat, Target) --> Result<Frame>)
    requires c < i <= |doc| && DocParses(doc, target, parse)
    requires DocCollect(doc, i, target, parse).Ok?
    ensures Parses(doc[c], target, parse) && CycleCollect(doc[c], |doc[c]|, target, parse).Ok?
    ensures k < |CycleCollect(doc[c], |doc[c]|, target, parse).value| ==>
      CountBefore(doc, c, target) + k < |DocCollect(doc, i, target, parse).value| &&
      DocCollect(doc, i, target, parse).value[CountBefore(doc, c, target) + k] ==
        CycleCollect(doc[c], |doc[c]|, target, parse).value[k]
  {
    assert Parses(doc[i - 1], target, parse);
    DocTableCount(doc, i - 1, target, parse);
    if c < i - 1 {
      DocCycleTable(doc, i - 1, c, k, target, parse);
    }
  }

  /** Every operation that passes the type filter has its table
      collected, numbered with its operation_id, at its table index. */
  lemma DocTableAt(doc: Document, i: nat, c: nat, p: nat, target: Target, parse: (Operation, nat, Target) --> Result<Frame>)
    requires c < i <= |doc| && p < |doc[c]| && DocParses(doc, target, parse)
    requires Matches(doc[c][p], target) && DocCollect(doc, i, target, parse).Ok?
    ensures parse.requires(doc[c][p], MatchCount(doc[c], p, target), target)
    ensures parse(doc[c][p], MatchCount(doc[c], p, target), target).Ok?
    ensures TableIndex(doc, c, p, target) < |DocCollect(doc, i, target, parse).value|
    ensures DocCollect(doc, i, target, parse).value[TableIndex(doc, c, p, target)] ==
      parse(doc[c][p], MatchCount(doc[c], p, target), target).value
  {
    DocCycleTable(doc, i, c, MatchCount(doc[c], p, target), target, parse);
    CycleTableAt(doc[c], |doc[c]|, p, target, parse);
  }

  /** The loader's own collection: the table of every matching operation is
      its enriched table, at its table index. */
  lemma LoadTableAt(doc: Document, c: nat, p: nat, target: Target)
    requires c < |doc| && p < |doc[c]| && WellFormed(doc, target)
    requires Matches(doc[c][p], target) && DocFrames(doc, |doc|, target).Ok?
    ensures OperationFrame(doc[c][p], MatchCount(doc[c], p, target), target).Ok?
    ensures TableIndex(doc, c, p, target) < |DocFrames(doc, |doc|, target).value|
    ensures DocFrames(doc, |doc|, target).value[TableIndex(doc, c, p, target)] ==
      OperationFrame(doc[c][p], MatchCount(doc[c], p, target), target).value
  {
    WellFormedParses(doc, target);
    DocTableAt(doc, |doc|, c, p, target, OperationFrame);
  }

  /** Only operations that pass the type filter have a table collected:
      every collected table is the table of a matching operation. */
  lemma {:induction false} DocTableFrom(doc: Document, i: nat, k: nat, target: Target, parse: (Operation, nat, Target) --> Result<Frame>)
    requires i <= |doc| && DocParses(doc, target, parse)
    requires DocCollect(doc, i, target, parse).Ok? && k < |DocCollect(doc, i, target, parse).value|
    ensures exists c, p ::
      0 <= c < i && 0 <= p < |doc[c]| && Matches(doc[c][p], target) && TableIndex(doc, c, p, target) == k
  {
    DocTableCount(doc, i, target, parse);
    DocTableCount(doc, i - 1, target, parse);
    if k < CountBefore(doc, i - 1, target) {
      DocTableFrom(doc, i - 1, k, target, parse);
    } else {
      MatchCountHits(doc[i - 1], |doc[i - 1]|, k - CountBefore(doc, i - 1, target), target);
    }
  }

  /** The tables of cycle `c` come before those of every later cycle. */
  lemma {:induction false} CountBeforeGrows(doc: Document, c: nat, d: nat, target: Target)
    requires c < d <= |doc|
    ensures CountBefore(doc, c, target) + MatchCount(doc[c], |doc[c]|, target) <= CountBefore(doc, d, target)
  {
    if c < d - 1 {
      CountBeforeGrows(doc, c, d - 1, target);
    }
  }

  /** Traversal order: a matching operation earlier in the recording (an
      earlier cycle, or earlier in the same cycle) has its table collected
      before that of a later one. */
  lemma TableIndexOrder(doc: Document, c: nat, p: nat, d: nat, q: nat, target: Target)
    requires c < |doc| && p < |doc[c]| && d < |doc| && q < |doc[d]|
    requires Matches(doc[c][p], target)
    requires c < d || (c == d && p < q)
    ensures TableIndex(doc, c, p, target) < TableIndex(doc, d, q, target)
  {
    if c < d {
      MatchCountGrows(doc[c], p, |doc[c]|, target);
      CountBeforeGrows(doc, c, d, target);
    } else {
      MatchCountGrows(doc[c], p, q, target);
    }
  }

  /** The loader's own collection: every collected table is that of a
      matching operation. */
  lemma LoadTableFrom(doc: Document, k: nat, target: Target)
    requires WellFormed(doc, target)
    requires DocFrames(doc, |doc|, target).Ok? && k < |DocFrames(doc, |doc|, target).value|
    ensures exists c, p ::
      0 <= c < |doc| && 0 <= p < |doc[c]| && Matches(doc[c][p], target) && TableIndex(doc, c, p, target) == k
  {
    WellFormedParses(doc, target);
    DocTableFrom(doc, |doc|, k, target, OperationFrame);
  }

  /** No operation of the target kind in the first `i` cycles. */
  predicate NoMatchBefore(doc: Document, i: nat, target: Target)
    requires i <= |doc|
  {
    forall c, p :: 0 <= c < i && 0 <= p < |doc[c]| ==> !Matches(doc[c][p], target)
  }

  /** The counter stays at 0 exactly when no operation matches. */
  lemma {:induction false} MatchCountZero(ops: Cycle, j: nat, target: Target)
    requires j <= |ops|
    ensures MatchCount(ops, j, target) == 0 <==> forall p :: 0 <= p < j ==> !Matches(ops[p], target)
  {
    if j > 0 {
      MatchCountZero(ops, j - 1, target);
    }
  }

  /** The cycles before `i` hold no operation of the target kind exactly
      when they count none. */
  lemma {:induction false} CountBeforeZero(doc: Document, i: nat, target: Target)
    requires i <= |doc|
    ensures CountBefore(doc, i, target) == 0 <==> NoMatchBefore(doc, i, target)
  {
    if i > 0 {
      CountBeforeZero(doc, i - 1, target);
      MatchCountZero(doc[i - 1], |doc[i - 1]|, target);
    }
  }

  /** A cycle with no operation of the target kind collects nothing, and
      cannot fail. */
  lemma {:induction false} CycleCollectNone(ops: Cycle, j: nat, target: Target, parse: (Operation, nat, Target) --> Result<Frame>)
    requires j <= |ops| && Parses(ops, target, parse) && MatchCount(ops, j, target) == 0
    ensures CycleCollect(ops, j, target, parse) == Ok([])
  {
    if j > 0 {
      CycleCollectNone(ops, j - 1, target, parse);
      assert !Matches(ops[j - 1], target);
      var none: seq<Frame> := [];
      assert none + none == none;
    }
  }

  /** Cycles with no operation of the target kind collect nothing. */
  lemma {:induction false} DocCollectNone(doc: Document, i: nat, target: Target, parse: (Operation, nat, Target) --> Result<Frame>)
    requires i <= |doc| && DocParses(doc, target, parse) && CountBefore(doc, i, target) == 0
    ensures DocCollect(doc, i, target, parse) == Ok([])
  {
    if i > 0 {
      DocCollectNone(doc, i - 1, target, parse);
      CycleCollectNone(doc[i - 1], |doc[i - 1]|, target, parse);
      var none: seq<Frame> := [];
      assert none + none == none;
    }
  }

  /** Fail fast: a cycle's traversal that fails reports the failure of the
      first of its operations of the target kind that fails to parse; every
      one before it parses. */
  lemma {:induction false} CycleCollectFails(ops: Cycle, j: nat, target: Target, parse: (Operation, nat, Target) --> Result<Frame>)
    requires j <= |ops| && Parses(ops, target, parse) && CycleCollect(ops, j, target, parse).Err?
    ensures exists p ::
      0 <= p < j && Matches(ops[p], target) &&
      parse(ops[p], MatchCount(ops, p, target), target) == Err(CycleCollect(ops, j, target, parse).error) &&
      forall q :: 0 <= q < p && Matches(ops[q], target) ==> parse(ops[q], MatchCount(ops, q, target), target).Ok?
  {
    if CycleCollect(ops, j - 1, target, parse).Err? {
      CycleCollectFails(ops, j - 1, target, parse);
    } else {
      assert Matches(ops[j - 1], target);
      forall q | 0 <= q < j - 1 && Matches(ops[q], target)
        ensures parse(ops[q], MatchCount(ops, q, target), target).Ok?
      {
        CycleTableAt(ops, j - 1, q, target, parse);
      }
    }
  }

  /** Fail fast: a traversal that fails reports the failure of the first
      operation of the target kind, in cycle order and then operation order,
      that fails to parse; every one before it parses. */
  lemma {:induction false} DocCollectFails(doc: Document, i: nat, target: Target, parse: (Operation, nat, Target) --> Result<Frame>)
    requires i <= |doc| && DocParses(doc, target, parse) && DocCollect(doc, i, target, parse).Err?
    ensures exists c, p ::
      0 <= c < i && 0 <= p < |doc[c]| && Matches(doc[c][p], target) &&
      parse(doc[c][p], MatchCount(doc[c], p, target), target) == Err(DocCollect(doc, i, target, parse).error) &&
      forall d, q ::
        0 <= d < |doc| && 0 <= q < |doc[d]| && (d < c || (d == c && q < p)) && Matches(doc[d][q], target) ==>
          parse(doc[d][q], MatchCount(doc[d], q, target), target).Ok?
  {
    if DocCollect(doc, i - 1, target, parse).Err? {
      DocCollectFails(doc, i - 1, target, parse);
    } else {
      assert Parses(doc[i - 1], target, parse);
      CycleCollectFails(doc[i - 1], |doc[i - 1]|, target, parse);
      var ops := doc[i - 1];
      var p :|
        0 <= p < |ops| && Matches(ops[p], target) &&
        parse(ops[p], MatchCount(ops, p, target), target) == Err(DocCollect(doc, i, target, parse).error) &&
        forall q :: 0 <= q < p && Matches(ops[q], target) ==> parse(ops[q], MatchCount(ops, q, target), target).Ok?;
      DocCollectParsed(doc, i - 1, target, parse);
    }
  }

  /** A traversal that succeeds parsed every operation of the target kind
      it went through. */
  lemma DocCollectParsed(doc: Document, i: nat, target: Target, parse: (Operation, nat, Target) --> Result<Frame>)
    requires i <= |doc| && DocParses(doc, target, parse) && DocCollect(doc, i, target, parse).Ok?
    ensures forall d, q :: 0 <= d < i && 0 <= q < |doc[d]| && Matches(doc[d][q], target) ==>
      parse(doc[d][q], MatchCount(doc[d], q, target), target).Ok?
  {
    forall d, q | 0 <= d < i && 0 <= q < |doc[d]| && Matches(doc[d][q], target)
      ensures parse(doc[d][q], MatchCount(doc[d], q, target), target).Ok?
    {
      DocTableAt(doc, i, d, q, target, parse);
    }
  }
}
