/**
 * The per-type column selection and the provenance columns: how one
 * measurement block becomes a table of equal-length columns, and how the
 * four provenance columns are set on every row of it.
 */
module Extractor {
  import opened DataModel

  /** The names of these fields. */
  function Names(fields: seq<Field>): set<string>
  {
    set f | f in fields :: f.name
  }

  /** No two fields share a name (the recording format guarantees it). */
  predicate DistinctNames(fields: seq<Field>)
  {
    forall i, j :: 0 <= i < j < |fields| ==> fields[i].name != fields[j].name
  }

  /** The number of rows of a table built from these columns: the length of
      the first one, or none when there are no columns. */
  function Height(fields: seq<Field>): nat
  {
    if fields == [] then 0 else |fields[0].samples|
  }

  /** All columns have the same length, which a table requires. */
  predicate Rectangular(fields: seq<Field>)
  {
    forall i :: 0 <= i < |fields| ==> |fields[i].samples| == Height(fields)
  }

  /** Row `m` of the table built from these columns. */
  function FieldsRow(fields: seq<Field>, m: nat): (row: Row)
    requires forall i :: 0 <= i < |fields| ==> m < |fields[i].samples|
    ensures row.Keys == Names(fields)
  {
    if fields == [] then map[]
    else
      var init, last := fields[..|fields| - 1], fields[|fields| - 1];
      assert fields == init + [last];
      FieldsRow(init, m)[last.name := Sample(last.samples[m])]
  }

  /** Each field's column holds that field's samples, verbatim. */
  lemma {:induction false} FieldsRowAt(fields: seq<Field>, m: nat, i: nat)
    requires forall k :: 0 <= k < |fields| ==> m < |fields[k].samples|
    requires DistinctNames(fields) && i < |fields|
    ensures fields[i].name in FieldsRow(fields, m)
    ensures FieldsRow(fields, m)[fields[i].name] == Sample(fields[i].samples[m])
  {
    if i < |fields| - 1 {
      var init := fields[..|fields| - 1];
      assert init[i] == fields[i];
      FieldsRowAt(init, m, i);
    }
  }

  /** The table built from columns of equal length: one row per sample. */
  function Table(fields: seq<Field>): (t: Frame)
    requires Rectangular(fields)
    ensures |t| == Height(fields)
  {
    seq(Height(fields), m requires 0 <= m < Height(fields) => FieldsRow(fields, m))
  }

  /** A column of the table holds its field's samples. */
  lemma TableAt(fields: seq<Field>, m: nat, f: Field)
    requires Rectangular(fields) && DistinctNames(fields)
    requires m < Height(fields) && f in fields
    ensures m < |f.samples| && Table(fields)[m][f.name] == Sample(f.samples[m])
  {
    var i :| 0 <= i < |fields| && fields[i] == f;
    FieldsRowAt(fields, m, i);
  }

  /** The fields not called `name`, in their order. */
  function WithoutField(fields: seq<Field>, name: string): (kept: seq<Field>)
    ensures |kept| <= |fields|
  {
    if fields == [] then []
    else
      var rest := WithoutField(fields[..|fields| - 1], name);
      var last := fields[|fields| - 1];
      if last.name == name then rest else rest + [last]
  }

  /** `WithoutField` keeps exactly the fields of another name, and keeps
      their names distinct. */
  lemma {:induction false} WithoutFieldMembers(fields: seq<Field>, name: string)
    ensures forall f :: f in WithoutField(fields, name) <==> f in fields && f.name != name
    ensures Names(WithoutField(fields, name)) == Names(fields) - {name}
    ensures DistinctNames(fields) ==> DistinctNames(WithoutField(fields, name))
  {
    if fields != [] {
      var init, last := fields[..|fields| - 1], fields[|fields| - 1];
      assert fields == init + [last];
      WithoutFieldMembers(init, name);
    }
  }

  /** The field called `name`, if there is one (the first, were there several). */
  function FindField(fields: seq<Field>, name: string): (r: Option<Field>)
    ensures r.Some? ==> r.value in fields && r.value.name == name
  {
    if fields == [] then None
    else if fields[0].name == name then Some(fields[0])
    else FindField(fields[1..], name)
  }

  /** The search fails exactly when no field has that name. */
  lemma {:induction false} FindFieldMissing(fields: seq<Field>, name: string)
    ensures FindField(fields, name).None? <==> name !in Names(fields)
  {
    if fields != [] {
      assert fields == [fields[0]] + fields[1..];
      FindFieldMissing(fields[1..], name);
    }
  }

  /** With distinct names, the field found is the only one of that name. */
  lemma {:induction false} FindFieldUnique(fields: seq<Field>, f: Field)
    requires DistinctNames(fields) && f in fields
    ensures FindField(fields, f.name) == Some(f)
  {
    if fields[0] != f {
      assert fields == [fields[0]] + fields[1..];
      var k :| 0 <= k < |fields| && fields[k] == f;
      assert fields[0].name != f.name by {
        assert 0 < k;
      }
      FindFieldUnique(fields[1..], f);
    }
  }

  /** The fields copied verbatim: all of them for a charge, all but
      `Capacity` for a discharge. */
  function Kept(block: Block, target: Target): (kept: seq<Field>)
    ensures |kept| <= |block|
  {
    match target
    case Charge => block
    case Discharge => WithoutField(block, CapacityName)
  }

  /** The fields kept are those of the block, less `Capacity` for a
      discharge; their names stay distinct. */
  lemma KeptMembers(block: Block, target: Target)
    ensures forall f :: f in Kept(block, target) <==> f in block && (target == Discharge ==> f.name != CapacityName)
    ensures Names(Kept(block, target)) == if target == Charge then Names(block) else Names(block) - {CapacityName}
    ensures DistinctNames(block) ==> DistinctNames(Kept(block, target))
  {
    WithoutFieldMembers(block, CapacityName);
  }

  /** The table one measurement block becomes. A charge block keeps all its
      fields; a discharge block keeps all but `Capacity`, whose first value is
      then set on every row. */
  function Extract(block: Block, target: Target): (r: Result<Frame>)
    ensures r.Ok? ==> |r.value| == Height(Kept(block, target))
    ensures r.Err? ==> r.error != NoMatchingOperations
  {
    var kept := Kept(block, target);
    if !Rectangular(kept) then Err(RaggedBlock)
    else
      match target
      case Charge => Ok(Table(kept))
      case Discharge =>
        match FindField(block, CapacityName)
        case None => Err(MissingCapacity)
        case Some(capacity) =>
          if capacity.samples == [] then Err(EmptyCapacity)
          else Ok(Broadcast(Table(kept), CapacityName, Sample(capacity.samples[0])))
  }

  /** A block with no fields: a charge gives a table with no rows; a
      discharge fails, since it has no `Capacity` field. */
  lemma ExtractNoFields()
    ensures Extract([], Charge) == Ok([])
    ensures Extract([], Discharge) == Err(MissingCapacity)
  {
  }

  /** When extraction fails, and why: the kept columns differ in length, or
      a discharge block has no `Capacity` value to broadcast. */
  lemma ExtractFailures(block: Block, target: Target)
    requires DistinctNames(block)
    ensures Extract(block, target) == Err(RaggedBlock) <==> !Rectangular(Kept(block, target))
    ensures Extract(block, target) == Err(MissingCapacity) <==>
      target == Discharge && Rectangular(Kept(block, target)) && CapacityName !in Names(block)
    ensures Extract(block, target) == Err(EmptyCapacity) <==>
      target == Discharge && Rectangular(Kept(block, target)) &&
      exists f :: f in block && f.name == CapacityName && f.samples == []
    ensures Extract(block, target).Ok? <==>
      Rectangular(Kept(block, target)) &&
      (target == Discharge ==> exists f :: f in block && f.name == CapacityName && f.samples != [])
  {
    FindFieldMissing(block, CapacityName);
    if target == Discharge && CapacityName in Names(block) {
      var capacity := FindField(block, CapacityName).value;
      forall f | f in block && f.name == CapacityName
        ensures f == capacity
      {
        FindFieldUnique(block, f);
      }
    }
  }

  /** Every row of an extracted table has exactly the block's field names as
      columns: for a discharge, `Capacity` is dropped and then set again. */
  lemma ExtractColumns(block: Block, target: Target, m: nat)
    requires Extract(block, target).Ok? && m < |Extract(block, target).value|
    ensures Extract(block, target).value[m].Keys == Names(block)
  {
    var kept := Kept(block, target);
    KeptMembers(block, target);
    assert Table(kept)[m] == FieldsRow(kept, m);
    if target == Discharge {
      var capacity := FindField(block, CapacityName).value;
      assert capacity in block;
    }
  }

  /** A kept field's column holds that field's samples, unchanged and in order. */
  lemma ExtractVerbatim(block: Block, target: Target, m: nat, f: Field)
    requires DistinctNames(block) && Extract(block, target).Ok?
    requires m < |Extract(block, target).value|
    requires f in Kept(block, target)
    ensures m < |f.samples|
    ensures Extract(block, target).value[m][f.name] == Sample(f.samples[m])
  {
    var kept := Kept(block, target);
    KeptMembers(block, target);
    TableAt(kept, m, f);
    if target == Discharge {
      var capacity := FindField(block, CapacityName).value;
      assert Extract(block, target).value[m] == Table(kept)[m][CapacityName := Sample(capacity.samples[0])];
    }
  }

  /** In a discharge table every row holds the block's one `Capacity` value. */
  lemma ExtractCapacity(block: Block, m: nat, f: Field)
    requires DistinctNames(block) && Extract(block, Discharge).Ok?
    requires m < |Extract(block, Discharge).value|
    requires f in block && f.name == CapacityName
    ensures f.samples != []
    ensures Extract(block, Discharge).value[m][CapacityName] == Sample(f.samples[0])
  {
    FindFieldUnique(block, f);
  }

  /** `frame[name] = cell`: every row gets a column `name` holding `cell`,
      replacing the column of that name if there is one. */
  function Broadcast(frame: Frame, name: string, cell: Cell): (r: Frame)
    ensures |r| == |frame|
  {
    seq(|frame|, m requires 0 <= m < |frame| => frame[m][name := cell])
  }

  /** `n` is `x` without its fraction, rounded toward zero. */
  predicate TowardZero(x: real, n: int)
  {
    (0.0 <= x ==> 0 <= n && n as real <= x < n as real + 1.0) &&
    (x < 0.0 ==> n <= 0 && n as real - 1.0 < x <= n as real)
  }

  /** `int(x)` on a recorded number: drops the fraction, toward zero. */
  function Trunc(x: real): (n: int)
    ensures TowardZero(x, n)
  {
    if 0.0 <= x then x.Floor else -((-x).Floor)
  }

  /** An operation's start timestamp: each recorded component truncated. */
  function StartTime(c: Clock): (t: DateTime)
    ensures TowardZero(c.year, t.year) && TowardZero(c.month, t.month) && TowardZero(c.day, t.day)
    ensures TowardZero(c.hour, t.hour) && TowardZero(c.minute, t.minute) && TowardZero(c.second, t.second)
  {
    DateTime(Trunc(c.year), Trunc(c.month), Trunc(c.day), Trunc(c.hour), Trunc(c.minute), Trunc(c.second))
  }

  /** The four provenance columns set on every row of an operation's table. */
  function Enrich(frame: Frame, id: nat, op: Operation): (r: Frame)
    ensures |r| == |frame|
  {
    var withId := Broadcast(frame, OperationIdName, Counter(id));
    var withTemperature := Broadcast(withId, TemperatureName, Sample(op.ambientTemperature));
    var withType := Broadcast(withTemperature, TypeName, Label(op.kind));
    Broadcast(withType, StartTimeName, Stamp(StartTime(op.time)))
  }

  /** Row `m` of an enriched table: the row's own columns plus the four
      provenance columns, which hold the operation's counter, ambient
      temperature, type and start time, replacing any measurement column of
      the same name; every other column is unchanged. */
  lemma EnrichRow(frame: Frame, id: nat, op: Operation, m: nat)
    requires m < |frame|
    ensures Enrich(frame, id, op)[m].Keys == frame[m].Keys + ProvenanceNames
    ensures Enrich(frame, id, op)[m][OperationIdName] == Counter(id)
    ensures Enrich(frame, id, op)[m][TemperatureName] == Sample(op.ambientTemperature)
    ensures Enrich(frame, id, op)[m][TypeName] == Label(op.kind)
    ensures Enrich(frame, id, op)[m][StartTimeName] == Stamp(StartTime(op.time))
    ensures forall k :: k in frame[m] && k !in ProvenanceNames ==> Enrich(frame, id, op)[m][k] == frame[m][k]
  {
  }

  /** A column that is not a provenance column survives the enrichment
      unchanged. */
  lemma EnrichKeeps(frame: Frame, id: nat, op: Operation, m: nat, name: string)
    requires m < |frame| && name in frame[m] && name !in ProvenanceNames
    ensures name in Enrich(frame, id, op)[m]
    ensures Enrich(frame, id, op)[m][name] == frame[m][name]
  {
    EnrichRow(frame, id, op, m);
  }
}
