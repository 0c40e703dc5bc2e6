/**
 * What the two row transformers share: filling a record field by field
 * with cast values (the `jsonMap.put(fieldName, castValue(...))` loop), and
 * joining the per-row results of a batch, all or nothing, in line order
 * (the `allOf(...).join()` followed by one `join()` per future).
 */
module RowRecords {
  import opened Wrappers
  import opened Values
  import opened Casting

  function MetaOf(metas: map<string, FieldMeta>, name: string): Option<FieldMeta>
  {
    if name in metas then Some(metas[name]) else None
  }

  function CastAt(cols: seq<Option<string>>, names: seq<string>, metas: map<string, FieldMeta>,
                  parseFloat: string -> Option<FloatBits>, k: int): Result<Value>
    requires 0 <= k < |names| <= |cols|
  {
    CastValue(cols[k], MetaOf(metas, names[k]), parseFloat)
  }

  /**
   * `init` with field `names[k]` put to the cast of column `k`, for each `k`
   * in order; the first cast that throws makes the whole row throw.
   */
  function FieldsRecord(init: Record, cols: seq<Option<string>>, names: seq<string>,
                        metas: map<string, FieldMeta>, parseFloat: string -> Option<FloatBits>): (r: Result<Record>)
    requires |names| <= |cols|
    ensures r.Err? ==> r.failure == NullPointer
    ensures r.Ok? ==> init.Keys <= r.value.Keys
    ensures r.Ok? ==> forall k :: 0 <= k < |names| ==> names[k] in r.value
    decreases |names|
  {
    if |names| == 0 then Ok(init)
    else
      var n := |names| - 1;
      match FieldsRecord(init, cols, names[..n], metas, parseFloat)
      case Err(e) => Err(e)
      case Ok(m) =>
        match CastAt(cols, names, metas, parseFloat, n)
        case Err(e) => Err(e)
        case Ok(v) => Ok(m[names[n] := v])
  }

  /** The fill throws exactly when the cast of some column throws. */
  lemma {:induction false} FieldsRecordFails(init: Record, cols: seq<Option<string>>, names: seq<string>,
                                             metas: map<string, FieldMeta>, parseFloat: string -> Option<FloatBits>)
    requires |names| <= |cols|
    ensures FieldsRecord(init, cols, names, metas, parseFloat).Err? <==>
              exists k :: 0 <= k < |names| && CastAt(cols, names, metas, parseFloat, k).Err?
    decreases |names|
  {
    if |names| > 0 {
      var n := |names| - 1;
      var prev := names[..n];
      FieldsRecordFails(init, cols, prev, metas, parseFloat);
      assert forall k :: 0 <= k < n ==> CastAt(cols, prev, metas, parseFloat, k) == CastAt(cols, names, metas, parseFloat, k);
    }
  }

  /**
   * A filled record has the initial keys plus every field name, and the
   * initial entries no field overwrites are kept.
   */
  lemma {:induction false} FieldsRecordKeys(init: Record, cols: seq<Option<string>>, names: seq<string>,
                                            metas: map<string, FieldMeta>, parseFloat: string -> Option<FloatBits>)
    requires |names| <= |cols|
    requires FieldsRecord(init, cols, names, metas, parseFloat).Ok?
    ensures FieldsRecord(init, cols, names, metas, parseFloat).value.Keys == init.Keys + set k | 0 <= k < |names| :: names[k]
    ensures forall key :: key in init && key !in names ==> FieldsRecord(init, cols, names, metas, parseFloat).value[key] == init[key]
    decreases |names|
  {
    if |names| > 0 {
      var n := |names| - 1;
      var prev := names[..n];
      FieldsRecordKeys(init, cols, prev, metas, parseFloat);
      var before := FieldsRecord(init, cols, prev, metas, parseFloat).value;
      assert FieldsRecord(init, cols, names, metas, parseFloat).value == before[names[n] := CastAt(cols, names, metas, parseFloat, n).value];
      assert (set k | 0 <= k < |names| :: names[k]) == (set k | 0 <= k < n :: prev[k]) + {names[n]};
    }
  }

  /** Field `names[k]` holds the cast of column `k`, unless a later field has the same name. */
  lemma {:induction false} FieldsRecordAt(init: Record, cols: seq<Option<string>>, names: seq<string>,
                                          metas: map<string, FieldMeta>, parseFloat: string -> Option<FloatBits>, k: int)
    requires |names| <= |cols| && 0 <= k < |names|
    requires FieldsRecord(init, cols, names, metas, parseFloat).Ok?
    requires forall j :: k < j < |names| ==> names[j] != names[k]
    ensures CastAt(cols, names, metas, parseFloat, k).Ok?
    ensures FieldsRecord(init, cols, names, metas, parseFloat).value[names[k]] == CastAt(cols, names, metas, parseFloat, k).value
    decreases |names|
  {
    var n := |names| - 1;
    if k < n {
      var prev := names[..n];
      assert CastAt(cols, prev, metas, parseFloat, k) == CastAt(cols, names, metas, parseFloat, k);
      FieldsRecordAt(init, cols, prev, metas, parseFloat, k);
    }
  }

  /** A row that throws while filling its first fields throws overall. */
  lemma FieldsRecordPrefixErr(init: Record, cols: seq<Option<string>>, names: seq<string>,
                              metas: map<string, FieldMeta>, parseFloat: string -> Option<FloatBits>, i: int)
    requires 0 <= i <= |names| <= |cols|
    requires FieldsRecord(init, cols, names[..i], metas, parseFloat).Err?
    ensures FieldsRecord(init, cols, names, metas, parseFloat).Err?
  {
    FieldsRecordFails(init, cols, names[..i], metas, parseFloat);
    var k :| 0 <= k < i && CastAt(cols, names[..i], metas, parseFloat, k).Err?;
    assert CastAt(cols, names, metas, parseFloat, k).Err?;
    FieldsRecordFails(init, cols, names, metas, parseFloat);
  }

  /** One more field: column `i`'s cast is put under `names[i]`, or, if the cast throws, the whole row throws. */
  lemma FieldsRecordStep(init: Record, cols: seq<Option<string>>, names: seq<string>,
                         metas: map<string, FieldMeta>, parseFloat: string -> Option<FloatBits>, i: int)
    requires 0 <= i < |names| <= |cols|
    requires FieldsRecord(init, cols, names[..i], metas, parseFloat).Ok?
    ensures CastAt(cols, names, metas, parseFloat, i).Err? ==> FieldsRecord(init, cols, names, metas, parseFloat).Err?
    ensures CastAt(cols, names, metas, parseFloat, i).Ok? ==>
              FieldsRecord(init, cols, names[..i + 1], metas, parseFloat) ==
                Ok(FieldsRecord(init, cols, names[..i], metas, parseFloat).value[names[i] := CastAt(cols, names, metas, parseFloat, i).value])
  {
    var prefix := names[..i + 1];
    assert prefix[..i] == names[..i];
    assert CastAt(cols, prefix, metas, parseFloat, i) == CastAt(cols, names, metas, parseFloat, i);
    if CastAt(cols, names, metas, parseFloat, i).Err? {
      FieldsRecordPrefixErr(init, cols, names, metas, parseFloat, i + 1);
    }
  }

  /** Every result's value in order, or `None` as soon as one of them is an exception. */
  function Collect<T>(results: seq<Result<T>>): (r: Option<seq<T>>)
    ensures r.Some? <==> forall i :: 0 <= i < |results| ==> results[i].Ok?
    ensures r.Some? ==> |r.value| == |results|
    ensures r.Some? ==> forall i :: 0 <= i < |results| ==> r.value[i] == results[i].value
  {
    if |results| == 0 then Some([])
    else
      var n := |results| - 1;
      match Collect(results[..n])
      case None => None
      case Some(vs) => if results[n].Ok? then Some(vs + [results[n].value]) else None
  }

  /**
   * The batch join: the list of every row's value in row order when all rows
   * succeed, and the empty list as soon as any row throws.
   */
  function AllOrNothing<T>(results: seq<Result<T>>): seq<T>
  {
    match Collect(results)
    case Some(vs) => vs
    case None => []
  }

  /** One result per row, in row order, when no row fails. */
  lemma AllOrNothingInOrder<T>(results: seq<Result<T>>)
    requires forall i :: 0 <= i < |results| ==> results[i].Ok?
    ensures |AllOrNothing(results)| == |results|
    ensures forall i :: 0 <= i < |results| ==> AllOrNothing(results)[i] == results[i].value
  {
  }

  /** No partial results: one failing row empties the whole batch. */
  lemma AllOrNothingFails<T>(results: seq<Result<T>>, i: int)
    requires 0 <= i < |results| && results[i].Err?
    ensures AllOrNothing(results) == []
  {
  }

  /**
   * The join of a batch of row futures: `allOf(...).join()` throws as soon
   * as one future failed, and the batch then yields the empty list;
   * otherwise each future's record is written as JSON, in order.
   */
  method JoinFutures(futures: seq<Result<Record>>, f: Foreign) returns (jsonList: seq<string>)
    ensures jsonList == Serialized(AllOrNothing(futures), f)
  {
    for i := 0 to |futures|
      invariant forall k :: 0 <= k < i ==> futures[k].Ok?
    {
      if futures[i].Err? {
        AllOrNothingFails(futures, i);
        return [];
      }
    }
    jsonList := [];
    for i := 0 to |futures|
      invariant |jsonList| == i
      invariant forall k :: 0 <= k < i ==> jsonList[k] == f.writeRecord(futures[k].value)
    {
      jsonList := jsonList + [f.writeRecord(futures[i].value)];
    }
    AllOrNothingInOrder(futures);
  }

  /** Each row record as the JSON text `writeValueAsString` makes of it. */
  function Serialized(records: seq<Record>, f: Foreign): (texts: seq<string>)
    ensures |texts| == |records|
    ensures forall i :: 0 <= i < |records| ==> texts[i] == f.writeRecord(records[i])
  {
    seq(|records|, i requires 0 <= i < |records| => f.writeRecord(records[i]))
  }
}
