/**
 * The reference cache of ResourceDescriptionCacheService, which
 * ResourceDescriptionService repeats line for line: RESOURCE_ID mapped to a
 * three-attribute description, rebuilt from the RESOURCE_DESCRIPTION table by
 * `refreshCache`. The query's outcome is an input: `None` when it throws,
 * otherwise its rows in result-set order.
 */
module ReferenceCache {
  import opened Wrappers

  const VersionKey: string := "RESOURCE_VERSION"
  const NameKey: string := "RESOURCE_NAME"
  const FileTypeKey: string := "FILE_TYPE"
  const DescriptionKeys: set<string> := {VersionKey, NameKey, FileTypeKey}

  /** One RESOURCE_DESCRIPTION row; any column may be SQL NULL. */
  datatype DescRow = DescRow(resourceId: Option<int>, version: Option<string>, name: Option<string>, fileType: Option<string>)

  /** The reference attributes of one dataset. */
  type Description = map<string, string>

  /** `rs.getInt("RESOURCE_ID")`: SQL NULL reads as 0. */
  function IdOf(row: DescRow): int
  {
    match row.resourceId
    case Some(id) => id
    case None => 0
  }

  /** `Map.of` accepts the row: none of the three string columns is NULL. */
  predicate Complete(row: DescRow)
  {
    row.version.Some? && row.name.Some? && row.fileType.Some?
  }

  function DescriptionOf(row: DescRow): (d: Description)
    requires Complete(row)
    ensures d.Keys == DescriptionKeys
    ensures d[VersionKey] == row.version.value && d[NameKey] == row.name.value && d[FileTypeKey] == row.fileType.value
  {
    map[VersionKey := row.version.value, NameKey := row.name.value, FileTypeKey := row.fileType.value]
  }

  function IdsOf(rows: seq<DescRow>): set<int>
  {
    set i | 0 <= i < |rows| :: IdOf(rows[i])
  }

  /**
   * The `newCache` one pass over `rows` builds: one `put` per row, so the
   * last row with an id wins; `None` when some row has a NULL column and
   * `Map.of` throws.
   */
  function Snapshot(rows: seq<DescRow>): (r: Option<map<int, Description>>)
    ensures r.None? <==> exists i :: 0 <= i < |rows| && !Complete(rows[i])
    ensures r.Some? ==> r.value.Keys == IdsOf(rows)
    ensures r.Some? ==> forall id :: id in r.value ==> r.value[id].Keys == DescriptionKeys
  {
    if |rows| == 0 then Some(map[])
    else
      var prev := rows[..|rows| - 1];
      var last := rows[|rows| - 1];
      assert forall i :: 0 <= i < |prev| ==> prev[i] == rows[i];
      assert IdsOf(rows) == IdsOf(prev) + {IdOf(last)};
      match Snapshot(prev)
      case None => None
      case Some(m) => if Complete(last) then Some(m[IdOf(last) := DescriptionOf(last)]) else None
  }

  /** With duplicate ids, the description of the last row carrying the id is kept. */
  lemma {:induction false} SnapshotLastWins(rows: seq<DescRow>, i: int)
    requires Snapshot(rows).Some?
    requires 0 <= i < |rows|
    requires forall j :: i < j < |rows| ==> IdOf(rows[j]) != IdOf(rows[i])
    ensures Complete(rows[i]) && Snapshot(rows).value[IdOf(rows[i])] == DescriptionOf(rows[i])
    decreases |rows|
  {
    if i < |rows| - 1 {
      var prev := rows[..|rows| - 1];
      assert Snapshot(prev).Some?;
      SnapshotLastWins(prev, i);
    }
  }

  /** The cache of one service instance: the `cache` field and the methods over it. */
  class DescriptionCache {
    var cache: map<int, Description>

    /** Every cached description has exactly the three reference keys. */
    ghost predicate Valid()
      reads this
    {
      forall id :: id in cache ==> cache[id].Keys == DescriptionKeys
    }

    /**
     * The service's constructor: an initial refresh whose exception is
     * caught, so a failure leaves the cache empty.
     */
    constructor (query: Option<seq<DescRow>>)
      ensures Valid()
      ensures query.Some? && Snapshot(query.value).Some? ==> cache == Snapshot(query.value).value
      ensures !(query.Some? && Snapshot(query.value).Some?) ==> cache == map[]
    {
      cache := map[];
      new;
      var _ := Refresh(query);
    }

    /**
     * `refreshCache()`: build a new map from the query's rows, then clear
     * the cache and copy the new map in. Every exception (the query's own, or
     * `Map.of` refusing a NULL column) is raised before `clear`, so on
     * failure (`ok` false: the exception escapes) the old contents remain.
     */
    method Refresh(query: Option<seq<DescRow>>) returns (ok: bool)
      requires Valid()
      modifies this
      ensures Valid()
      ensures ok <==> query.Some? && Snapshot(query.value).Some?
      ensures ok ==> cache == Snapshot(query.value).value
      ensures !ok ==> cache == old(cache)
    {
      if query.None? {
        return false;
      }
      var rows := query.value;
      var newCache: map<int, Description> := map[];
      for i := 0 to |rows|
        invariant Snapshot(rows[..i]) == Some(newCache)
      {
        assert rows[..i + 1][..i] == rows[..i];
        if !Complete(rows[i]) {
          assert Snapshot(rows).None?;
          return false;
        }
        newCache := newCache[IdOf(rows[i]) := DescriptionOf(rows[i])];
      }
      assert rows[..|rows|] == rows;
      cache := newCache;
      ok := true;
    }

    /** `getDescription(resourceId)`: the cached description, or null. */
    function GetDescription(id: int): (r: Option<Description>)
      reads this
      ensures r.Some? <==> id in cache
      ensures r.Some? ==> r.value == cache[id]
      ensures Valid() && r.Some? ==> r.value.Keys == DescriptionKeys
    {
      if id in cache then Some(cache[id]) else None
    }
  }
}
