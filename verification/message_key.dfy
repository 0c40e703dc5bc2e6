/**
 * The Kafka key of one output message: the record is parsed into a map,
 * copied into a TreeMap, its values are concatenated in ascending key order
 * (each through `String.valueOf`, no separator) and the text is hashed with
 * SHA-256 and hex-encoded. The TreeMap is a strictly ascending list of
 * entries; SHA-256, UTF-8 and hex are foreign functions.
 */
module MessageKey {
  import opened Values
  import opened JavaText

  type Entries = seq<(string, Json)>

  /** Keys strictly ascending in `compareTo` order, as a TreeMap holds them. */
  predicate Sorted(t: Entries)
  {
    forall i, j :: 0 <= i < j < |t| ==> Less(t[i].0, t[j].0)
  }

  /** `t` lists exactly the entries of `m`. */
  predicate Represents(t: Entries, m: map<string, Json>)
  {
    && (forall p :: p in t ==> p.0 in m && m[p.0] == p.1)
    && (forall k :: k in m ==> (k, m[k]) in t)
  }

  /**
   * `TreeMap.put(k, v)`: the entry goes to its place in key order, and an
   * entry with the same key is replaced.
   */
  function Insert(t: Entries, k: string, v: Json): (r: Entries)
    requires Sorted(t)
    ensures Sorted(r)
    ensures (k, v) in r
    ensures forall p :: p in r ==> p == (k, v) || (p in t && p.0 != k)
    ensures forall p :: p in t && p.0 != k ==> p in r
    decreases |t|
  {
    if |t| == 0 then [(k, v)]
    else if t[0].0 == k then
      assert forall j :: 1 <= j < |t| ==> t[j].0 != k by {
        forall j | 1 <= j < |t| ensures t[j].0 != k {
          LessIrreflexive(k);
        }
      }
      [(k, v)] + t[1..]
    else if Less(k, t[0].0) then
      assert forall j :: 0 <= j < |t| ==> Less(k, t[j].0) by {
        forall j | 0 <= j < |t| ensures Less(k, t[j].0) {
          if j > 0 {
            LessTransitive(k, t[0].0, t[j].0);
          }
        }
      }
      LessIrreflexive(k);
      [(k, v)] + t
    else
      LessTotal(k, t[0].0);
      var rest := Insert(t[1..], k, v);
      assert forall p :: p in rest ==> Less(t[0].0, p.0);
      [t[0]] + rest
  }

  /**
   * `new TreeMap<>(csvMap)` of the map Jackson builds from an object's
   * fields: every field put in document order, so a later duplicate wins,
   * as it does in the map itself.
   */
  function TreeOf(fields: Entries): (t: Entries)
    ensures Sorted(t)
    ensures Represents(t, FieldsToMap(fields))
  {
    if |fields| == 0 then []
    else
      var n := |fields| - 1;
      var prev := TreeOf(fields[..n]);
      var r := Insert(prev, fields[n].0, fields[n].1);
      assert FieldsToMap(fields) == FieldsToMap(fields[..n])[fields[n].0 := fields[n].1];
      r
  }

  /** Without its first entry, an ascending list represents the map without that key. */
  lemma TailRepresents(t: Entries, m: map<string, Json>)
    requires Sorted(t) && Represents(t, m) && |t| > 0
    ensures Sorted(t[1..]) && Represents(t[1..], m - {t[0].0})
  {
    var rest := m - {t[0].0};
    LessIrreflexive(t[0].0);
    forall p | p in t[1..] ensures p.0 in rest && rest[p.0] == p.1 {
      var k :| 1 <= k < |t| && t[k] == p;
    }
    forall k | k in rest ensures (k, rest[k]) in t[1..] {
      assert (k, m[k]) in t;
    }
  }

  /** Two ascending lists of the same map start with the same entry: the one with the least key. */
  lemma SameHead(t1: Entries, t2: Entries, m: map<string, Json>)
    requires Sorted(t1) && Sorted(t2) && Represents(t1, m) && Represents(t2, m)
    requires |t1| > 0 && |t2| > 0
    ensures t1[0] == t2[0]
  {
    var a, b := t1[0], t2[0];
    assert a in t1 && b in t2;
    var j :| 0 <= j < |t2| && t2[j] == (a.0, m[a.0]);
    var i :| 0 <= i < |t1| && t1[i] == (b.0, m[b.0]);
    if j > 0 {
      if i > 0 {
        LessAsymmetric(a.0, b.0);
      } else {
        LessIrreflexive(a.0);
      }
    }
  }

  /** Only the empty list represents the empty map. */
  lemma EmptyRepresents(t: Entries, m: map<string, Json>)
    requires Represents(t, m)
    ensures |t| == 0 <==> m.Keys == {}
  {
    if |t| > 0 {
      assert t[0].0 in m;
    } else {
      assert forall k :: k !in m;
    }
  }

  /** Two ascending entry lists of the same map are the same list. */
  lemma {:induction false} SortedUnique(t1: Entries, t2: Entries, m: map<string, Json>)
    requires Sorted(t1) && Sorted(t2)
    requires Represents(t1, m) && Represents(t2, m)
    ensures t1 == t2
    decreases |t1|
  {
    if |t1| == 0 || |t2| == 0 {
      EmptyRepresents(t1, m);
      EmptyRepresents(t2, m);
    } else {
      SameHead(t1, t2, m);
      TailRepresents(t1, m);
      TailRepresents(t2, m);
      SortedUnique(t1[1..], t2[1..], m - {t1[0].0});
      assert t1 == [t1[0]] + t1[1..] && t2 == [t2[0]] + t2[1..];
    }
  }

  /** `values().stream().map(String::valueOf).collect(joining())` over a TreeMap. */
  function ConcatValues(t: Entries, f: Foreign): string
  {
    if |t| == 0 then "" else ValueOf(t[0].1, f) + ConcatValues(t[1..], f)
  }

  /** `sha256Hex(input)`: the hex form of the SHA-256 digest of the UTF-8 bytes. */
  function Sha256Hex(input: string, f: Foreign): string
  {
    f.hex(f.sha256(f.utf8(input)))
  }

  /** The text that is hashed: the record's values in ascending key order. */
  function CanonicalText(fields: Entries, f: Foreign): string
  {
    ConcatValues(TreeOf(fields), f)
  }

  /** The key of the message that carries a record with these fields. */
  function KeyOf(fields: Entries, f: Foreign): string
  {
    Sha256Hex(CanonicalText(fields, f), f)
  }

  /**
   * The key depends on the record's contents only: two records whose fields
   * give the same map, in whatever order, get the same key.
   */
  lemma KeyOrderIndependent(fields1: Entries, fields2: Entries, f: Foreign)
    requires FieldsToMap(fields1) == FieldsToMap(fields2)
    ensures CanonicalText(fields1, f) == CanonicalText(fields2, f)
    ensures KeyOf(fields1, f) == KeyOf(fields2, f)
  {
    SortedUnique(TreeOf(fields1), TreeOf(fields2), FieldsToMap(fields1));
  }

  /** Values are taken in key order, not document order, and with no separator. */
  lemma CanonicalTextExample(f: Foreign)
    ensures CanonicalText([("b", JStr("2")), ("a", JStr("1"))], f) == "12"
    ensures CanonicalText([("a", JStr("1")), ("b", JStr("2"))], f) == "12"
  {
    assert Less("a", "b");
    var ba: Entries := [("b", JStr("2")), ("a", JStr("1"))];
    assert ba[..1] == [("b", JStr("2"))];
    assert TreeOf(ba[..1]) == [("b", JStr("2"))];
    assert TreeOf(ba) == [("a", JStr("1")), ("b", JStr("2"))];
    var ab: Entries := [("a", JStr("1")), ("b", JStr("2"))];
    assert ab[..1] == [("a", JStr("1"))];
    assert TreeOf(ab[..1]) == [("a", JStr("1"))];
    LessAsymmetric("a", "b");
    assert TreeOf(ab) == [("a", JStr("1")), ("b", JStr("2"))];
    var t: Entries := [("a", JStr("1")), ("b", JStr("2"))];
    assert t[1..] == [("b", JStr("2"))];
    assert ConcatValues(t[1..][1..], f) == "";
    assert ConcatValues(t, f) == "1" + ("2" + "");
  }
}
