/**
 * The entry point of the pipeline: for each message of the input topic,
 * `processZip` takes the zip path out of the message, checks it against the
 * file-name pattern, reads and enriches `metadata.json` from the archive,
 * has the CSV transformer turn the archive's rows into JSON records, and
 * sends one keyed message per record to the output topic. The file system
 * is a map from path to archive, the Kafka producer is the sequence of
 * messages it has been handed, and the PROPS_DATA query is an input.
 */
module StreamsConfig {
  import opened Wrappers
  import opened Values
  import opened JavaText
  import opened Archive
  import opened ReferenceCache
  import opened CsvZipProcessor
  import opened MessageKey

  const OutputTopic: string := "output_results"
  const ZipPathField: string := "zipPath"
  const MetadataEntryName: string := "metadata.json"
  const ResourceIdKey: string := "resourceId"

  /** The pattern `.*111_csv_with_metadata_.*\.zip$`, which `matches` applies to the whole path. */
  const ZipMarker: string := "111_csv_with_metadata_"
  const ZipSuffix: string := ".zip"

  /** The characters `.` refuses to match in java.util.regex without DOTALL. */
  predicate IsRegexLineTerminator(c: char)
  {
    c == '\n' || c == '\r' || c == '\U{85}' || c == '\U{2028}' || c == '\U{2029}'
  }

  /** Every character can be matched by `.`. */
  predicate NoLineTerminator(s: string)
  {
    forall i :: 0 <= i < |s| ==> !IsRegexLineTerminator(s[i])
  }

  /**
   * `zipPath.matches(".*111_csv_with_metadata_.*\\.zip$")`: a path free of
   * line terminators that ends in ".zip" and has the marker before that
   * suffix. `$` cannot match before a final line terminator here, because
   * `matches` needs the whole input consumed.
   */
  predicate MatchesZipPattern(p: string)
  {
    && NoLineTerminator(p)
    && EndsWith(p, ZipSuffix)
    && Find(p[..|p| - |ZipSuffix|], ZipMarker).Some?
  }

  /** The marker and the suffix are plain printable text. */
  lemma PatternTextClean()
    ensures NoLineTerminator(ZipMarker) && NoLineTerminator(ZipSuffix)
  {
    forall i | 0 <= i < |ZipMarker| ensures ' ' < ZipMarker[i] < '\U{7f}' {
    }
    forall i | 0 <= i < |ZipSuffix| ensures ' ' < ZipSuffix[i] < '\U{7f}' {
    }
  }

  lemma NoLineTerminatorConcat(a: string, b: string)
    requires NoLineTerminator(a) && NoLineTerminator(b)
    ensures NoLineTerminator(a + b)
  {
    forall i | 0 <= i < |a + b| ensures !IsRegexLineTerminator((a + b)[i]) {
      if i < |a| {
        assert (a + b)[i] == a[i];
      } else {
        assert (a + b)[i] == b[i - |a|];
      }
    }
  }

  /** Every path of the form `a + marker + b + ".zip"` matches, whatever `a` and `b` are, given no line terminators. */
  lemma ZipPatternComplete(a: string, b: string)
    requires NoLineTerminator(a) && NoLineTerminator(b)
    ensures MatchesZipPattern(a + ZipMarker + b + ZipSuffix)
  {
    var p := a + ZipMarker + b + ZipSuffix;
    assert p[..|p| - |ZipSuffix|] == a + ZipMarker + b;
    assert p[|p| - |ZipSuffix|..] == ZipSuffix;
    assert OccursAt(a + ZipMarker + b, ZipMarker, |a|) by {
      assert (a + ZipMarker + b)[|a|..|a| + |ZipMarker|] == ZipMarker;
    }
    FindOccurrence(a + ZipMarker + b, ZipMarker);
    PatternTextClean();
    NoLineTerminatorConcat(a, ZipMarker);
    NoLineTerminatorConcat(a + ZipMarker, b);
    NoLineTerminatorConcat(a + ZipMarker + b, ZipSuffix);
  }

  /** Every matching path has that form: a prefix, the marker, a middle part and ".zip". */
  lemma ZipPatternSound(p: string)
    requires MatchesZipPattern(p)
    ensures exists i :: 0 <= i && i + |ZipMarker| <= |p| - |ZipSuffix| &&
              p == p[..i] + ZipMarker + p[i + |ZipMarker|..|p| - |ZipSuffix|] + ZipSuffix
  {
    var n := |p| - |ZipSuffix|;
    var q := p[..n];
    FindOccurrence(q, ZipMarker);
    var i := Find(q, ZipMarker).value;
    var m := i + |ZipMarker|;
    assert OccursAt(q, ZipMarker, i);
    var head, marker, middle, tail := p[..i], p[i..m], p[m..n], p[n..];
    assert marker == q[i..m] == ZipMarker;
    assert tail == ZipSuffix;
    assert p == head + marker + middle + tail by {
      assert p[..m] == head + marker;
      assert p[..n] == p[..m] + middle;
      assert p == p[..n] + tail;
    }
  }

  /** A path with a trailing newline, a name without the marker, or another extension is refused. */
  lemma ZipPatternRejects(a: string, b: string)
    ensures !MatchesZipPattern(a + ZipMarker + b + ZipSuffix + "\n")
    ensures !MatchesZipPattern(a + ZipMarker + b + ZipSuffix + ".bak")
    ensures !MatchesZipPattern("report.zip")
  {
    var p := a + ZipMarker + b + ZipSuffix + "\n";
    assert IsRegexLineTerminator(p[|p| - 1]);
    var q := a + ZipMarker + b + ZipSuffix + ".bak";
    assert q[|q| - 4..] == ".bak";
    var r := "report.zip";
    assert r[..|r| - |ZipSuffix|] == "report";
    assert !OccursAt("report", ZipMarker, 0);
  }

  /**
   * `extractZipPath(value, objectMapper)`: the text of the message's
   * "zipPath" field (the empty string when there is none) when it matches
   * the pattern, `None` (null) when it does not; an unreadable message throws.
   */
  function ExtractZipPath(value: string, f: Foreign): (r: Result<Option<string>>)
    ensures r.Err? <==> f.readTree(value).None?
    ensures r.Err? ==> r.failure == JsonUnreadable
    ensures r.Ok? ==> (r.value.Some? <==> MatchesZipPattern(AsText(PathField(f.readTree(value).value, ZipPathField), f)))
    ensures r.Ok? && r.value.Some? ==> r.value.value == AsText(PathField(f.readTree(value).value, ZipPathField), f)
  {
    match f.readTree(value)
    case None => Err(JsonUnreadable)
    case Some(node) =>
      var zipPath := AsText(PathField(node, ZipPathField), f);
      if MatchesZipPattern(zipPath) then Ok(Some(zipPath)) else Ok(None)
  }

  /** A message whose "zipPath" is a string of the expected form yields that path. */
  lemma ExtractZipPathAccepts(value: string, fields: seq<(string, Json)>, a: string, b: string, f: Foreign)
    requires f.readTree(value) == Some(JObject(fields))
    requires ZipPathField in FieldsToMap(fields) && FieldsToMap(fields)[ZipPathField] == JStr(a + ZipMarker + b + ZipSuffix)
    requires NoLineTerminator(a) && NoLineTerminator(b)
    ensures ExtractZipPath(value, f) == Ok(Some(a + ZipMarker + b + ZipSuffix))
  {
    ZipPatternComplete(a, b);
  }

  /**
   * `extractResourceId(metadata)`: `Integer.parseInt` of the `toString` of
   * the "resourceId" entry; `None` when the entry is absent or null, or when
   * its text is not a 32-bit decimal integer.
   */
  function ExtractResourceId(metadata: map<string, Json>, f: Foreign): (r: Option<int>)
    ensures r.Some? ==> ResourceIdKey in metadata && metadata[ResourceIdKey] != JNull
    ensures r.Some? ==> IntMin <= r.value <= IntMax
    ensures ResourceIdKey in metadata && metadata[ResourceIdKey] != JNull ==>
      r == ParseInt(ValueOf(metadata[ResourceIdKey], f))
    ensures ResourceIdKey in metadata && metadata[ResourceIdKey].JStr? ==> r == ParseInt(metadata[ResourceIdKey].s)
    ensures ResourceIdKey in metadata && metadata[ResourceIdKey].JBool? ==> r.None?
  {
    if ResourceIdKey !in metadata || metadata[ResourceIdKey] == JNull then None
    else ParseInt(ValueOf(metadata[ResourceIdKey], f))
  }

  /** An id written as its decimal string comes back unchanged. */
  lemma ResourceIdRoundTrip(metadata: map<string, Json>, n: int, f: Foreign)
    requires IntMin <= n <= IntMax
    requires ResourceIdKey in metadata && metadata[ResourceIdKey] == JStr(IntToString(n))
    ensures ExtractResourceId(metadata, f) == Some(n)
  {
    ParseIntToString(n);
  }

  /** A numeric id whose Java text is its decimal string comes back unchanged. */
  lemma ResourceIdNumber(metadata: map<string, Json>, literal: string, n: int, f: Foreign)
    requires IntMin <= n <= IntMax
    requires ResourceIdKey in metadata && metadata[ResourceIdKey] == JNum(literal)
    requires f.objectText(JNum(literal)) == IntToString(n)
    ensures ExtractResourceId(metadata, f) == Some(n)
  {
    ParseIntToString(n);
  }

  /** `metadata.putAll(resourceDesc)`: the description's entries are added, replacing equal keys. */
  function Enrich(metadata: map<string, Json>, desc: Description): (r: map<string, Json>)
    ensures r.Keys == metadata.Keys + desc.Keys
    ensures forall k :: k in desc ==> r[k] == JStr(desc[k])
    ensures forall k :: k in metadata && k !in desc ==> r[k] == metadata[k]
  {
    metadata + map k | k in desc :: JStr(desc[k])
  }

  /** Enriching twice with the same description changes nothing more. */
  lemma EnrichIdempotent(metadata: map<string, Json>, desc: Description)
    ensures Enrich(Enrich(metadata, desc), desc) == Enrich(metadata, desc)
  {
    var once := Enrich(metadata, desc);
    var twice := Enrich(once, desc);
    forall k | k in twice
      ensures k in once && twice[k] == once[k]
    {
    }
    assert twice.Keys == once.Keys;
  }

  /** A reference description never touches the id, so the id read after enrichment is the one read before. */
  lemma EnrichKeepsResourceId(metadata: map<string, Json>, desc: Description, f: Foreign)
    requires desc.Keys == DescriptionKeys
    ensures ExtractResourceId(Enrich(metadata, desc), f) == ExtractResourceId(metadata, f)
  {
    assert ResourceIdKey !in desc;
  }

  /** `zipFile.getEntry(name)`: the first entry with exactly that name. */
  function FindEntry(archive: Archive, name: string): (r: Option<Entry>)
    ensures r.Some? ==> r.value in archive && r.value.name == name
    ensures r.None? <==> forall j :: 0 <= j < |archive| ==> archive[j].name != name
  {
    if |archive| == 0 then None
    else if archive[0].name == name then Some(archive[0])
    else FindEntry(archive[1..], name)
  }

  /** The object fields of the archive's `metadata.json`, when the archive opens, has that entry and the entry is a JSON object. */
  function MetadataFields(zipPath: string, fs: map<string, Archive>, f: Foreign): Option<seq<(string, Json)>>
  {
    if zipPath !in fs then None
    else
      match FindEntry(fs[zipPath], MetadataEntryName)
      case None => None
      case Some(entry) =>
        match f.readTree(entry.text)
        case Some(JObject(fields)) => Some(fields)
        case _ => None
  }

  /**
   * `extractAndEnrichMetadata(zipPath, objectMapper)`: the map read from
   * `metadata.json`, with the cached description of its resource id copied
   * in when there is one; `None` (null) when the archive cannot be opened,
   * has no such entry, or the entry is not a JSON object.
   */
  function EnrichedMetadata(zipPath: string, fs: map<string, Archive>, cache: map<int, Description>, f: Foreign)
    : (r: Option<map<string, Json>>)
    ensures r.Some? <==> MetadataFields(zipPath, fs, f).Some?
    ensures r.Some? ==>
      var m := FieldsToMap(MetadataFields(zipPath, fs, f).value);
      var id := ExtractResourceId(m, f);
      && (id.Some? && id.value in cache ==> r.value == Enrich(m, cache[id.value]))
      && (!(id.Some? && id.value in cache) ==> r.value == m)
  {
    match MetadataFields(zipPath, fs, f)
    case None => None
    case Some(fields) =>
      var m := FieldsToMap(fields);
      var id := ExtractResourceId(m, f);
      if id.Some? && id.value in cache then Some(Enrich(m, cache[id.value])) else Some(m)
  }

  /**
   * With a cache whose descriptions hold the three reference keys, the
   * enriched map keeps every entry of `metadata.json` other than those keys,
   * and the resource id read from it is the one read from the file.
   */
  lemma EnrichedMetadataKeepsFile(zipPath: string, fs: map<string, Archive>, cache: map<int, Description>, f: Foreign)
    requires forall id :: id in cache ==> cache[id].Keys == DescriptionKeys
    requires MetadataFields(zipPath, fs, f).Some?
    ensures
      var m := FieldsToMap(MetadataFields(zipPath, fs, f).value);
      var r := EnrichedMetadata(zipPath, fs, cache, f).value;
      && m.Keys <= r.Keys
      && (forall k :: k in m && k !in DescriptionKeys ==> r[k] == m[k])
      && ExtractResourceId(r, f) == ExtractResourceId(m, f)
  {
    var m := FieldsToMap(MetadataFields(zipPath, fs, f).value);
    var id := ExtractResourceId(m, f);
    if id.Some? && id.value in cache {
      EnrichKeepsResourceId(m, cache[id.value], f);
    }
  }

  /** One message of the output topic: its key and its text. */
  datatype Message = Message(topic: string, key: string, value: string)

  /**
   * The message for one CSV record: keyed by the hash of its values in key
   * order, carrying the metadata JSON and the record separated by a newline;
   * `None` when the record does not read back as a JSON object (the
   * exception that ends the send loop).
   */
  function MessageFor(csvJson: string, metadataJson: string, f: Foreign): (r: Option<Message>)
    ensures r.Some? <==> f.readTree(csvJson).Some? && f.readTree(csvJson).value.JObject?
    ensures r.Some? ==> r.value.topic == OutputTopic
    ensures r.Some? ==> r.value.key == KeyOf(f.readTree(csvJson).value.fields, f)
    ensures r.Some? ==> r.value.value == metadataJson + "\n" + csvJson
  {
    match f.readTree(csvJson)
    case Some(JObject(fields)) => Some(Message(OutputTopic, KeyOf(fields, f), metadataJson + "\n" + csvJson))
    case _ => None
  }

  /** The longest prefix of `xs` that holds only `Some`, unwrapped. */
  function TakeSome<T>(xs: seq<Option<T>>): (ys: seq<T>)
    ensures |ys| <= |xs|
    ensures forall i :: 0 <= i < |ys| ==> xs[i] == Some(ys[i])
    ensures |ys| < |xs| ==> xs[|ys|].None?
  {
    if |xs| == 0 || xs[0].None? then [] else [xs[0].value] + TakeSome(xs[1..])
  }

  /** The three properties of `TakeSome` determine it. */
  lemma {:induction false} TakeSomeCharacterized<T>(xs: seq<Option<T>>, ys: seq<T>)
    requires |ys| <= |xs|
    requires forall i :: 0 <= i < |ys| ==> xs[i] == Some(ys[i])
    requires |ys| < |xs| ==> xs[|ys|].None?
    ensures ys == TakeSome(xs)
    decreases |xs|
  {
    if |xs| > 0 && |ys| > 0 {
      TakeSomeCharacterized(xs[1..], ys[1..]);
      assert ys == [ys[0]] + ys[1..];
    }
  }

  /** The message each record would give, or `None` where it does not read back as an object. */
  function Candidates(csvJsons: seq<string>, metadataJson: string, f: Foreign): (r: seq<Option<Message>>)
    ensures |r| == |csvJsons|
    ensures forall i :: 0 <= i < |csvJsons| ==> r[i] == MessageFor(csvJsons[i], metadataJson, f)
  {
    seq(|csvJsons|, i requires 0 <= i < |csvJsons| => MessageFor(csvJsons[i], metadataJson, f))
  }

  /**
   * The messages `sendCsvJsonsToKafka` hands to the producer: one per
   * record, in order, up to the first record that cannot be read back.
   */
  function Emitted(csvJsons: seq<string>, metadataJson: string, f: Foreign): (msgs: seq<Message>)
    ensures |msgs| <= |csvJsons|
    ensures forall i :: 0 <= i < |msgs| ==> MessageFor(csvJsons[i], metadataJson, f) == Some(msgs[i])
    ensures |msgs| < |csvJsons| ==> MessageFor(csvJsons[|msgs|], metadataJson, f).None?
  {
    TakeSome(Candidates(csvJsons, metadataJson, f))
  }

  /** The three properties of `Emitted` determine it: any list that has them is that list. */
  lemma EmittedCharacterized(csvJsons: seq<string>, metadataJson: string, f: Foreign, msgs: seq<Message>)
    requires |msgs| <= |csvJsons|
    requires forall i :: 0 <= i < |msgs| ==> MessageFor(csvJsons[i], metadataJson, f) == Some(msgs[i])
    requires |msgs| < |csvJsons| ==> MessageFor(csvJsons[|msgs|], metadataJson, f).None?
    ensures msgs == Emitted(csvJsons, metadataJson, f)
  {
    TakeSomeCharacterized(Candidates(csvJsons, metadataJson, f), msgs);
  }

  /** Every record is sent exactly when every record reads back as an object. */
  lemma EmittedAll(csvJsons: seq<string>, metadataJson: string, f: Foreign)
    ensures |Emitted(csvJsons, metadataJson, f)| == |csvJsons| <==>
              forall i :: 0 <= i < |csvJsons| ==> MessageFor(csvJsons[i], metadataJson, f).Some?
  {
  }

  /** What one input message leads to: the filter's verdict and the messages sent on the way. */
  datatype Outcome = Outcome(accepted: bool, messages: seq<Message>)

  function ArchiveAt(fs: map<string, Archive>, path: string): Option<Archive>
  {
    if path in fs then Some(fs[path]) else None
  }

  /**
   * `processZip(value, objectMapper)`: each stage that yields null or throws
   * ends the processing with `false`; the send loop may have sent some
   * messages before it throws. A fully sent batch is accepted when the
   * metadata map is not empty.
   */
  function ZipOutcome(value: Option<string>, fs: map<string, Archive>, cache: map<int, Description>,
                      props: PropsQuery, f: Foreign): (o: Outcome)
    ensures o.accepted ==> value.Some? && Trim(value.value) != ""
    ensures forall i :: 0 <= i < |o.messages| ==> o.messages[i].topic == OutputTopic
  {
    if value.None? || Trim(value.value) == "" then Outcome(false, [])
    else
      match ExtractZipPath(value.value, f)
      case Err(_) => Outcome(false, [])
      case Ok(None) => Outcome(false, [])
      case Ok(Some(zipPath)) =>
        match EnrichedMetadata(zipPath, fs, cache, f)
        case None => Outcome(false, [])
        case Some(metadata) =>
          match ExtractResourceId(metadata, f)
          case None => Outcome(false, [])
          case Some(id) =>
            match CsvZipRecords(ArchiveAt(fs, zipPath), id, props, f)
            case Err(_) => Outcome(false, [])
            case Ok(csvJsons) => Delivered(csvJsons, metadata, f)
  }

  /**
   * The last stage of `processZip`: the send loop, then `!metadata.isEmpty()`
   * when every record was sent.
   */
  function Delivered(csvJsons: seq<string>, metadata: map<string, Json>, f: Foreign): (o: Outcome)
    ensures o.messages == Emitted(csvJsons, f.writeMetadata(metadata), f)
    ensures o.accepted <==> (|metadata| > 0 &&
              forall i :: 0 <= i < |csvJsons| ==> MessageFor(csvJsons[i], f.writeMetadata(metadata), f).Some?)
  {
    var msgs := Emitted(csvJsons, f.writeMetadata(metadata), f);
    EmittedAll(csvJsons, f.writeMetadata(metadata), f);
    Outcome(|msgs| == |csvJsons| && |metadata| > 0, msgs)
  }

  /**
   * Anything accepted or sent means that every stage before the send loop
   * succeeded: a non-blank message, a matching zip path, enriched metadata,
   * a resource id and the rows of the CSV; the outcome is then the send
   * loop's over those rows and that metadata.
   */
  lemma ZipOutcomeStages(value: Option<string>, fs: map<string, Archive>, cache: map<int, Description>,
                         props: PropsQuery, f: Foreign)
    ensures var o := ZipOutcome(value, fs, cache, props, f);
      o.accepted || |o.messages| > 0 ==>
        && value.Some? && Trim(value.value) != ""
        && var path := ExtractZipPath(value.value, f);
           && path.Ok? && path.value.Some?
           && var metadata := EnrichedMetadata(path.value.value, fs, cache, f);
              && metadata.Some?
              && var id := ExtractResourceId(metadata.value, f);
                 && id.Some?
                 && var rows := CsvZipRecords(ArchiveAt(fs, path.value.value), id.value, props, f);
                    && rows.Ok?
                    && o == Delivered(rows.value, metadata.value, f)
  {
  }

  /** A missing or blank input message is filtered out and sends nothing. */
  lemma ZipOutcomeRejectsBlank(value: Option<string>, fs: map<string, Archive>, cache: map<int, Description>,
                               props: PropsQuery, f: Foreign)
    requires value.Some? ==> forall i :: 0 <= i < |value.value| ==> value.value[i] <= ' '
    ensures ZipOutcome(value, fs, cache, props, f) == Outcome(false, [])
  {
    if value.Some? {
      TrimEmpty(value.value);
    }
  }

  /** A message whose path does not match the pattern is filtered out and sends nothing. */
  lemma ZipOutcomeRejectsPath(value: string, node: Json, fs: map<string, Archive>, cache: map<int, Description>,
                              props: PropsQuery, f: Foreign)
    requires f.readTree(value) == Some(node)
    requires !MatchesZipPattern(AsText(PathField(node, ZipPathField), f))
    ensures ZipOutcome(Some(value), fs, cache, props, f) == Outcome(false, [])
  {
  }

  /**
   * When every stage succeeds, one message per CSV record is sent, in
   * order, until a record does not read back; the input is accepted exactly
   * when all of them were sent (the metadata map then holds at least the id).
   */
  lemma {:induction false} ZipOutcomeDelivers(value: string, fs: map<string, Archive>, cache: map<int, Description>,
                                              props: PropsQuery, f: Foreign,
                                              zipPath: string, metadata: map<string, Json>, id: int, csvJsons: seq<string>)
    requires Trim(value) != ""
    requires ExtractZipPath(value, f) == Ok(Some(zipPath))
    requires EnrichedMetadata(zipPath, fs, cache, f) == Some(metadata)
    requires ExtractResourceId(metadata, f) == Some(id)
    requires CsvZipRecords(ArchiveAt(fs, zipPath), id, props, f) == Ok(csvJsons)
    ensures ZipOutcome(Some(value), fs, cache, props, f).messages == Emitted(csvJsons, f.writeMetadata(metadata), f)
    ensures ZipOutcome(Some(value), fs, cache, props, f).accepted <==>
              forall i :: 0 <= i < |csvJsons| ==> MessageFor(csvJsons[i], f.writeMetadata(metadata), f).Some?
  {
    assert ZipOutcome(Some(value), fs, cache, props, f) == Delivered(csvJsons, metadata, f);
    assert |metadata| > 0 by {
      assert ResourceIdKey in metadata;
    }
  }

  /**
   * The configuration bean: the cache service it was given and the
   * messages its Kafka producer has been handed so far.
   */
  class KafkaStreamsConfig {
    const cacheService: DescriptionCache
    var sent: seq<Message>

    constructor (cacheService: DescriptionCache)
      ensures this.cacheService == cacheService
      ensures sent == []
    {
      this.cacheService := cacheService;
      sent := [];
    }

    /** `processZip(value, objectMapper)`, the stream's filter. */
    method ProcessZip(value: Option<string>, fs: map<string, Archive>, props: PropsQuery, f: Foreign)
      returns (accepted: bool)
      modifies this
      ensures accepted == ZipOutcome(value, fs, cacheService.cache, props, f).accepted
      ensures sent == old(sent) + ZipOutcome(value, fs, cacheService.cache, props, f).messages
    {
      if value.None? || Trim(value.value) == "" {
        return false;
      }
      var zipPathResult := ExtractZipPath(value.value, f);
      if zipPathResult.Err? || zipPathResult.value.None? {
        return false;
      }
      var zipPath := zipPathResult.value.value;
      var metadata := ExtractAndEnrichMetadata(zipPath, fs, f);
      if metadata.None? {
        return false;
      }
      var resourceId := ExtractResourceId(metadata.value, f);
      if resourceId.None? {
        return false;
      }
      var csvJsons := ProcessZipCsv(ArchiveAt(fs, zipPath), resourceId.value, props, f);
      if csvJsons.Err? {
        return false;
      }
      var sentAll := SendCsvJsonsToKafka(csvJsons.value, metadata.value, f);
      if !sentAll {
        return false;
      }
      accepted := |metadata.value| > 0;
    }

    /** `extractAndEnrichMetadata(zipPath, objectMapper)`, reading the cache through `getDescription`. */
    method ExtractAndEnrichMetadata(zipPath: string, fs: map<string, Archive>, f: Foreign)
      returns (metadata: Option<map<string, Json>>)
      ensures metadata == EnrichedMetadata(zipPath, fs, cacheService.cache, f)
    {
      var fields := MetadataFields(zipPath, fs, f);
      if fields.None? {
        return None;
      }
      var m := FieldsToMap(fields.value);
      var resourceId := ExtractResourceId(m, f);
      if resourceId.Some? {
        var resourceDesc := cacheService.GetDescription(resourceId.value);
        if resourceDesc.Some? {
          m := Enrich(m, resourceDesc.value);
        }
      }
      metadata := Some(m);
    }

    /**
     * `sendCsvJsonsToKafka(csvJsons, metadata, objectMapper)`: one `send`
     * per record, in order; `false` when a record does not read back, which
     * throws after the earlier records were sent.
     */
    method SendCsvJsonsToKafka(csvJsons: seq<string>, metadata: map<string, Json>, f: Foreign)
      returns (ok: bool)
      modifies this
      ensures sent == old(sent) + Emitted(csvJsons, f.writeMetadata(metadata), f)
      ensures ok <==> |Emitted(csvJsons, f.writeMetadata(metadata), f)| == |csvJsons|
    {
      var metadataJson := f.writeMetadata(metadata);
      ghost var before := sent;
      ghost var emitted: seq<Message> := [];
      for i := 0 to |csvJsons|
        invariant sent == before + emitted
        invariant |emitted| == i
        invariant forall j :: 0 <= j < i ==> MessageFor(csvJsons[j], metadataJson, f) == Some(emitted[j])
      {
        var message := ComposeMessage(csvJsons[i], metadataJson, f);
        if message.None? {
          EmittedCharacterized(csvJsons, metadataJson, f, emitted);
          return false;
        }
        sent := sent + [message.value];
        emitted := emitted + [message.value];
      }
      EmittedCharacterized(csvJsons, metadataJson, f, emitted);
      ok := true;
    }

    /**
     * One iteration's work before the send: read the record back as a map,
     * hash its values in key order, and put the metadata JSON in front.
     */
    method ComposeMessage(csvJson: string, metadataJson: string, f: Foreign) returns (message: Option<Message>)
      ensures message == MessageFor(csvJson, metadataJson, f)
    {
      var csvMap := f.readTree(csvJson);
      if csvMap.None? || !csvMap.value.JObject? {
        return None;
      }
      var key := KeyOf(csvMap.value.fields, f);
      var value := metadataJson + "\n" + csvJson;
      message := Some(Message(OutputTopic, key, value));
    }
  }
}
