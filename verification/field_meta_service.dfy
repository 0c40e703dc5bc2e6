/**
 * FieldMetaService: the per-dataset field schema, read from the PROPS_DATA
 * rows of one RESOURCE_ID. The query's result is the input sequence of
 * rows; each row callback is one loop iteration.
 */
module FieldMetaService {
  import opened Wrappers
  import opened Casting

  /** One PROPS_DATA row: FIELD_NAME, FIELD_TYPE, FIELD_SPECIAL_TYPE. */
  datatype PropsRow = PropsRow(fieldName: string, fieldType: Option<string>, specialType: Option<string>)

  const ResourceIdField: string := "resourceId"
  const ResourceNameField: string := "resourceName"

  /** The names of `rows`, as a set. */
  function NamesOf(rows: seq<PropsRow>): set<string>
  {
    set i | 0 <= i < |rows| :: rows[i].fieldName
  }

  /** The map `getFieldMeta` builds: one `put` per row, so a later row with the same name wins. */
  function FieldMetaOf(rows: seq<PropsRow>): (m: map<string, FieldMeta>)
    ensures m.Keys == NamesOf(rows)
  {
    if |rows| == 0 then map[]
    else
      var last := rows[|rows| - 1];
      var prev := rows[..|rows| - 1];
      assert NamesOf(rows) == NamesOf(prev) + {last.fieldName} by {
        assert forall i :: 0 <= i < |prev| ==> prev[i] == rows[i];
      }
      FieldMetaOf(prev)[last.fieldName := FieldMeta(last.fieldType, last.specialType)]
  }

  predicate IsIdentityField(name: string)
  {
    name == ResourceIdField || name == ResourceNameField
  }

  /** The list `getPropsFieldNames` builds: row order, the two identity columns left out. */
  function PropsFieldNames(rows: seq<PropsRow>): (names: seq<string>)
  {
    if |rows| == 0 then []
    else
      var last := rows[|rows| - 1];
      PropsFieldNames(rows[..|rows| - 1]) + (if IsIdentityField(last.fieldName) then [] else [last.fieldName])
  }

  /** `getFieldMeta(resourceId)` over the rows its query returned. */
  method GetFieldMeta(rows: seq<PropsRow>) returns (m: map<string, FieldMeta>)
    ensures m == FieldMetaOf(rows)
  {
    m := map[];
    for i := 0 to |rows|
      invariant m == FieldMetaOf(rows[..i])
    {
      assert rows[..i + 1][..i] == rows[..i];
      m := m[rows[i].fieldName := FieldMeta(rows[i].fieldType, rows[i].specialType)];
    }
    assert rows[..|rows|] == rows;
  }

  /** `getPropsFieldNames(resourceId)` over the rows its query returned. */
  method GetPropsFieldNames(rows: seq<PropsRow>) returns (names: seq<string>)
    ensures names == PropsFieldNames(rows)
  {
    names := [];
    for i := 0 to |rows|
      invariant names == PropsFieldNames(rows[..i])
    {
      assert rows[..i + 1][..i] == rows[..i];
      var name := rows[i].fieldName;
      if !IsIdentityField(name) {
        names := names + [name];
      }
    }
    assert rows[..|rows|] == rows;
  }

  /** For a name, the metadata of the last row that carries it is the one kept. */
  lemma {:induction false} FieldMetaLastWins(rows: seq<PropsRow>, i: int)
    requires 0 <= i < |rows|
    requires forall j :: i < j < |rows| ==> rows[j].fieldName != rows[i].fieldName
    ensures FieldMetaOf(rows)[rows[i].fieldName] == FieldMeta(rows[i].fieldType, rows[i].specialType)
    decreases |rows|
  {
    if i < |rows| - 1 {
      var prev := rows[..|rows| - 1];
      FieldMetaLastWins(prev, i);
    }
  }

  /** The field names keep the row order: the list of a concatenation is the concatenation of the lists. */
  lemma {:induction false} PropsFieldNamesAppend(a: seq<PropsRow>, b: seq<PropsRow>)
    ensures PropsFieldNames(a + b) == PropsFieldNames(a) + PropsFieldNames(b)
    decreases |b|
  {
    if |b| > 0 {
      var b' := b[..|b| - 1];
      assert (a + b)[..|a + b| - 1] == a + b';
      PropsFieldNamesAppend(a, b');
    } else {
      assert a + b == a;
    }
  }

  /** Exactly the identity columns are left out; every other name is kept, duplicates included. */
  lemma PropsFieldNamesOfRow(row: PropsRow)
    ensures PropsFieldNames([row]) == if IsIdentityField(row.fieldName) then [] else [row.fieldName]
  {
    assert [row][..0] == [];
  }

  /** No listed name is an identity column, and every listed name comes from some row. */
  lemma {:induction false} PropsFieldNamesMembers(rows: seq<PropsRow>)
    ensures forall k :: 0 <= k < |PropsFieldNames(rows)| ==>
      !IsIdentityField(PropsFieldNames(rows)[k]) && PropsFieldNames(rows)[k] in NamesOf(rows)
    decreases |rows|
  {
    if |rows| > 0 {
      var prev := rows[..|rows| - 1];
      PropsFieldNamesMembers(prev);
      assert NamesOf(prev) <= NamesOf(rows) by {
        assert forall i :: 0 <= i < |prev| ==> prev[i] == rows[i];
      }
    }
  }

  /** Over the same rows, every listed field name has metadata. */
  lemma PropsNamesHaveMeta(rows: seq<PropsRow>)
    ensures forall k :: 0 <= k < |PropsFieldNames(rows)| ==> PropsFieldNames(rows)[k] in FieldMetaOf(rows)
  {
    PropsFieldNamesMembers(rows);
  }
}
