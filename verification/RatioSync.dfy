/** Comparing the local price tables with those of several upstream channels. The comparison table is built
    in one pass and pruned in two more; it is proved equal to a direct description of its contents. */
module RatioSync {
  import opened Basics

  /** A price-table entry as decoded from JSON or read from the settings. */
  datatype Value = Null | Num(number: real) | Str(text: string)

  const EPSILON := 0.000000001
  const SAME := Str("same")

  const FIELDS: seq<string> := [
    "model_ratio", "completion_ratio", "cache_ratio", "create_cache_ratio", "image_ratio", "audio_ratio",
    "audio_completion_ratio", "model_price", "billing_mode", "billing_expr"]

  predicate NearlyEqual(a: real, b: real) {
    if a > b then a - b < EPSILON else b - a < EPSILON
  }

  predicate ValuesEqual(a: Value, b: Value) {
    if a.Num? && b.Num? then NearlyEqual(a.number, b.number) else a == b
  }

  /** field -> model -> value */
  type Table = map<string, map<string, Value>>

  function ValueMap(t: Table, field: string): map<string, Value> {
    if field in t then t[field] else map[]
  }

  function Entry(t: Table, field: string, model: string): Option<Value> {
    if model in ValueMap(t, field) then Some(ValueMap(t, field)[model]) else None
  }

  datatype Channel = Channel(name: string, data: Table)

  /** One row of the comparison: the local value, and per channel what is shown and whether it is trusted. */
  datatype Item = Item(current: Value, upstreams: map<string, Value>, confidence: map<string, bool>)

  // ----- The direct description -----

  function LocalValue(local: Table, field: string, model: string): Value {
    match Entry(local, field, model)
    case Some(v) => v
    case None => Null
  }

  /** What a channel's cell shows. */
  function Shown(localValue: Value, entry: Option<Value>): Value {
    match entry
    case Some(v) => if ValuesEqual(localValue, v) then SAME else v
    case None => if localValue.Null? then SAME else Null
  }

  predicate Differs(localValue: Value, entry: Option<Value>) {
    && entry.Some? && !ValuesEqual(localValue, entry.value)
    && (localValue.Null? ==> entry.value != SAME)
  }

  predicate IsModelIn(t: Table, model: string) {
    exists i :: 0 <= i < |FIELDS| && model in ValueMap(t, FIELDS[i])
  }

  function Names(channels: seq<Channel>): set<string> {
    set i | 0 <= i < |channels| :: channels[i].name
  }

  /** The channel whose values end up under `name`: the last of that name. */
  function LastNamed(channels: seq<Channel>, name: string): Channel
    requires name in Names(channels)
  {
    if channels[|channels| - 1].name == name then channels[|channels| - 1]
    else
      assert forall i :: 0 <= i < |channels| - 1 ==> channels[..|channels| - 1][i] == channels[i];
      LastNamed(channels[..|channels| - 1], name)
  }

  /** A price pair that only a placeholder would carry is not trusted. */
  predicate Trusted(c: Channel, model: string) {
    !Placeholder(ValueMap(c.data, "model_ratio"), ValueMap(c.data, "completion_ratio"), model)
  }

  predicate Placeholder(ratios: map<string, Value>, completions: map<string, Value>, model: string) {
    && model in ratios && model in completions && ratios[model].Num? && completions[model].Num?
    && NearlyEqual(ratios[model].number, 37.5) && NearlyEqual(completions[model].number, 1.0)
  }

  predicate AnyEntry(channels: seq<Channel>, field: string, model: string) {
    exists i :: 0 <= i < |channels| && Entry(channels[i].data, field, model).Some?
  }

  predicate AnyDifference(channels: seq<Channel>, localValue: Value, field: string, model: string) {
    exists i :: 0 <= i < |channels| && Differs(localValue, Entry(channels[i].data, field, model))
  }

  predicate Included(local: Table, channels: seq<Channel>, field: string, model: string) {
    var lv := LocalValue(local, field, model);
    if lv.Null? then AnyEntry(channels, field, model) else AnyDifference(channels, lv, field, model)
  }

  function Columns(local: Table, channels: seq<Channel>, field: string, model: string): map<string, Value> {
    map name | name in Names(channels) ::
      Shown(LocalValue(local, field, model), Entry(LastNamed(channels, name).data, field, model))
  }

  function Confidence(channels: seq<Channel>, model: string): map<string, bool> {
    map name | name in Names(channels) :: Trusted(LastNamed(channels, name), model)
  }

  function ItemOf(local: Table, channels: seq<Channel>, field: string, model: string): Item {
    Item(LocalValue(local, field, model), Columns(local, channels, field, model), Confidence(channels, model))
  }

  /** model -> field -> row */
  type Comparison = map<string, map<string, Item>>

  /** Every row of the unpruned table is what it should be, and no row is missing. */
  ghost predicate IsUnpruned(d: Comparison, local: Table, channels: seq<Channel>) {
    && (forall model, field :: HasRow(d, model, field) <==> field in FIELDS && Included(local, channels, field, model))
    && (forall model, field :: HasRow(d, model, field) ==> d[model][field] == ItemOf(local, channels, field, model))
  }

  predicate HasRow(d: Comparison, model: string, field: string) {
    model in d && field in d[model]
  }

  predicate Telling(v: Value) {
    v != Null && v != SAME
  }

  /** Channels with a telling cell somewhere in the table. */
  function Different(d: Comparison): set<string> {
    set model, field, name | model in d && field in d[model] && name in d[model][field].upstreams &&
                             Telling(d[model][field].upstreams[name]) :: name
  }

  function Restricted(item: Item, kept: set<string>): Item {
    item.(upstreams := map name | name in item.upstreams && name in kept :: item.upstreams[name],
          confidence := map name | name in item.confidence && name in kept :: item.confidence[name])
  }

  /** Some cell in a kept column is not the same as the local value. */
  predicate Worthwhile(item: Item, kept: set<string>) {
    exists name :: name in item.upstreams && name in kept && item.upstreams[name] != SAME
  }

  function RowsOf(d: Comparison, model: string): map<string, Item> {
    if model in d then d[model] else map[]
  }

  /** The rows of one model after pruning: worthwhile rows only, kept columns only. */
  function PrunedRows(raw: map<string, Item>, kept: set<string>): map<string, Item> {
    map field | field in raw && Worthwhile(raw[field], kept) :: Restricted(raw[field], kept)
  }

  /** The pruned table: every model pruned, no empty models. */
  ghost predicate IsPruned(d: Comparison, raw: Comparison, kept: set<string>) {
    && d.Keys <= raw.Keys
    && (forall model <- raw :: RowsOf(d, model) == PrunedRows(raw[model], kept))
    && (forall model <- d :: d[model] != map[])
  }

  // ----- The program -----

  method AllModels(local: Table, channels: seq<Channel>) returns (models: set<string>)
    ensures forall model :: model in models <==>
              IsModelIn(local, model) || exists i :: 0 <= i < |channels| && IsModelIn(channels[i].data, model)
  {
    models := AddModels(local, {});
    for i := 0 to |channels|
      invariant forall model :: model in models <==>
                  IsModelIn(local, model) || exists j :: 0 <= j < i && IsModelIn(channels[j].data, model)
    {
      models := AddModels(channels[i].data, models);
    }
  }

  method AddModels(t: Table, before: set<string>) returns (models: set<string>)
    ensures forall model :: model in models <==> model in before || IsModelIn(t, model)
  {
    models := before;
    for i := 0 to |FIELDS|
      invariant forall model :: model in models <==>
                  model in before || exists j :: 0 <= j < i && model in ValueMap(t, FIELDS[j])
    {
      models := models + ValueMap(t, FIELDS[i]).Keys;
    }
  }

  /** The confidence pass over one channel. */
  method CheckConfidence(c: Channel, models: set<string>) returns (confidence: map<string, bool>)
    ensures confidence == map model | model in models :: Trusted(c, model)
  {
    var ratios, completions := ValueMap(c.data, "model_ratio"), ValueMap(c.data, "completion_ratio");
    confidence := map[];
    var rest := models;
    while rest != {}
      invariant rest <= models && confidence == map model | model in models - rest :: Trusted(c, model)
    {
      var model :| model in rest;
      rest := rest - {model};
      var trusted := IsTrusted(ratios, completions, model);
      ConfidencePush(c, models, rest, model, confidence, trusted);
      confidence := confidence[model := trusted];
    }
  }

  /** Whether one model's prices are trusted. */
  method IsTrusted(ratios: map<string, Value>, completions: map<string, Value>, model: string) returns (trusted: bool)
    ensures trusted == !Placeholder(ratios, completions, model)
  {
    trusted := true;
    if |ratios| > 0 && |completions| > 0 {
      if model in ratios && model in completions {
        if ratios[model].Num? && completions[model].Num? &&
           NearlyEqual(ratios[model].number, 37.5) && NearlyEqual(completions[model].number, 1.0) {
          trusted := false;
        }
      }
    }
  }

  lemma ConfidencePush(c: Channel, models: set<string>, rest: set<string>, model: string,
                       confidence: map<string, bool>, trusted: bool)
    requires model in models && model !in rest && trusted == Trusted(c, model)
    requires confidence == map m | m in models - (rest + {model}) :: Trusted(c, m)
    ensures confidence[model := trusted] == map m | m in models - rest :: Trusted(c, m)
  {
  }

  lemma NamesPush(channels: seq<Channel>, i: nat)
    requires i < |channels|
    ensures Names(channels[..i + 1]) == Names(channels[..i]) + {channels[i].name}
  {
    assert forall j :: 0 <= j < i ==> channels[..i + 1][j] == channels[..i][j] == channels[j];
    forall name | name in Names(channels[..i])
      ensures name in Names(channels[..i + 1])
    {
      var j :| 0 <= j < i && channels[..i][j].name == name;
      assert channels[..i + 1][j].name == name;
    }
    assert channels[..i + 1][i].name == channels[i].name;
  }

  lemma LastNamedPush(channels: seq<Channel>, i: nat, name: string)
    requires i < |channels| && name in Names(channels[..i + 1])
    requires name != channels[i].name ==> name in Names(channels[..i])
    ensures LastNamed(channels[..i + 1], name) ==
            if name == channels[i].name then channels[i] else LastNamed(channels[..i], name)
  {
    assert channels[..i + 1][..i] == channels[..i];
  }

  lemma ColumnsPush(local: Table, channels: seq<Channel>, i: nat, field: string, model: string)
    requires i < |channels|
    ensures Columns(local, channels[..i + 1], field, model) ==
            Columns(local, channels[..i], field, model)[channels[i].name :=
              Shown(LocalValue(local, field, model), Entry(channels[i].data, field, model))]
  {
    NamesPush(channels, i);
    forall name | name in Names(channels[..i + 1])
      ensures LastNamed(channels[..i + 1], name) ==
              if name == channels[i].name then channels[i] else LastNamed(channels[..i], name)
    {
      LastNamedPush(channels, i, name);
    }
  }

  lemma AnyPush(channels: seq<Channel>, i: nat, localValue: Value, field: string, model: string)
    requires i < |channels|
    ensures AnyEntry(channels[..i + 1], field, model) ==
            (AnyEntry(channels[..i], field, model) || Entry(channels[i].data, field, model).Some?)
    ensures AnyDifference(channels[..i + 1], localValue, field, model) ==
            (AnyDifference(channels[..i], localValue, field, model) ||
             Differs(localValue, Entry(channels[i].data, field, model)))
  {
    var more := channels[..i + 1];
    assert more[i] == channels[i];
    assert forall j :: 0 <= j < i ==> more[j] == channels[..i][j];
  }

  /** One cell: what is shown, and whether it is a difference. */
  method BuildCell(localValue: Value, entry: Option<Value>) returns (shown: Value, differs: bool)
    ensures shown == Shown(localValue, entry) && differs == Differs(localValue, entry)
  {
    shown, differs := Null, false;
    if entry.Some? {
      shown := entry.value;
      if localValue != Null && !ValuesEqual(localValue, shown) {
        differs := true;
      } else if ValuesEqual(localValue, shown) {
        shown := SAME;
      }
    }
    if shown == Null && localValue == Null {
      shown := SAME;
    }
    if localValue == Null && shown != Null && shown != SAME {
      differs := true;
    }
  }

  method ConfidenceMaps(channels: seq<Channel>, models: set<string>) returns (all: map<string, map<string, bool>>)
    ensures all.Keys == Names(channels)
    ensures forall name <- all :: all[name] == map model | model in models :: Trusted(LastNamed(channels, name), model)
  {
    all := map[];
    for i := 0 to |channels|
      invariant all.Keys == Names(channels[..i])
      invariant forall name <- all ::
                  all[name] == map model | model in models :: Trusted(LastNamed(channels[..i], name), model)
    {
      NamesPush(channels, i);
      forall name | name in Names(channels[..i + 1])
        ensures LastNamed(channels[..i + 1], name) ==
                if name == channels[i].name then channels[i] else LastNamed(channels[..i], name)
      {
        LastNamedPush(channels, i, name);
      }
      var confidence := CheckConfidence(channels[i], models);
      all := all[channels[i].name := confidence];
    }
    assert channels[..|channels|] == channels;
  }

  /** The innermost loop of the first pass, values: one (model, field) over all channels. */
  method BuildColumns(local: Table, channels: seq<Channel>, field: string, model: string)
    returns (upstreamValues: map<string, Value>, hasUpstreamValue: bool, hasDifference: bool)
    ensures upstreamValues == Columns(local, channels, field, model)
    ensures hasUpstreamValue == AnyEntry(channels, field, model)
    ensures hasDifference == AnyDifference(channels, LocalValue(local, field, model), field, model)
  {
    var localValue := LocalValue(local, field, model);
    upstreamValues, hasUpstreamValue, hasDifference := map[], false, false;
    for i := 0 to |channels|
      invariant upstreamValues == Columns(local, channels[..i], field, model)
      invariant hasUpstreamValue == AnyEntry(channels[..i], field, model)
      invariant hasDifference == AnyDifference(channels[..i], localValue, field, model)
    {
      ColumnsPush(local, channels, i, field, model);
      AnyPush(channels, i, localValue, field, model);
      var entry := Entry(channels[i].data, field, model);
      var shown, differs := BuildCell(localValue, entry);
      hasUpstreamValue := hasUpstreamValue || entry.Some?;
      hasDifference := hasDifference || differs;
      upstreamValues := upstreamValues[channels[i].name := shown];
    }
    assert channels[..|channels|] == channels;
  }

  /** The same loop, confidences. */
  method BuildConfidences(channels: seq<Channel>, confidenceMaps: map<string, map<string, bool>>, model: string)
    returns (confidenceValues: map<string, bool>)
    requires confidenceMaps.Keys == Names(channels)
    requires forall name <- confidenceMaps ::
               model in confidenceMaps[name] && confidenceMaps[name][model] == Trusted(LastNamed(channels, name), model)
    ensures confidenceValues.Keys == Names(channels)
    ensures forall name <- confidenceValues :: confidenceValues[name] == Trusted(LastNamed(channels, name), model)
  {
    confidenceValues := map[];
    for i := 0 to |channels|
      invariant confidenceValues.Keys == Names(channels[..i]) && Names(channels[..i]) <= Names(channels)
      invariant forall name <- confidenceValues ::
                  confidenceValues[name] == Trusted(LastNamed(channels, name), model)
    {
      NamesPush(channels, i);
      assert channels[i].name in Names(channels);
      confidenceValues := confidenceValues[channels[i].name := confidenceMaps[channels[i].name][model]];
    }
    assert channels[..|channels|] == channels;
  }

  lemma ConfidenceByName(channels: seq<Channel>, model: string, confidence: map<string, bool>)
    requires confidence.Keys == Names(channels)
    requires forall name <- confidence :: confidence[name] == Trusted(LastNamed(channels, name), model)
    ensures confidence == Confidence(channels, model)
  {
  }

  method BuildItem(local: Table, channels: seq<Channel>, confidenceMaps: map<string, map<string, bool>>,
                   field: string, model: string)
    returns (item: Item, shouldInclude: bool)
    requires confidenceMaps.Keys == Names(channels)
    requires forall name <- confidenceMaps ::
               model in confidenceMaps[name] && confidenceMaps[name][model] == Trusted(LastNamed(channels, name), model)
    ensures item == ItemOf(local, channels, field, model)
    ensures shouldInclude == Included(local, channels, field, model)
  {
    var localValue := LocalValue(local, field, model);
    var upstreamValues, hasUpstreamValue, hasDifference := BuildColumns(local, channels, field, model);
    var confidenceValues := BuildConfidences(channels, confidenceMaps, model);
    ConfidenceByName(channels, model, confidenceValues);
    shouldInclude := if localValue != Null then hasDifference else hasUpstreamValue;
    item := Item(localValue, upstreamValues, confidenceValues);
  }

  /** Rows of one model that are done after the first `n` fields. */
  ghost predicate ModelRows(rows: map<string, Item>, local: Table, channels: seq<Channel>, model: string, n: nat)
    requires n <= |FIELDS|
  {
    && (forall field :: field in rows <==> field in FIELDS[..n] && Included(local, channels, field, model))
    && (forall field <- rows :: rows[field] == ItemOf(local, channels, field, model))
  }

  method BuildModel(local: Table, channels: seq<Channel>, confidenceMaps: map<string, map<string, bool>>, model: string)
    returns (rows: map<string, Item>)
    requires confidenceMaps.Keys == Names(channels)
    requires forall name <- confidenceMaps ::
               model in confidenceMaps[name] && confidenceMaps[name][model] == Trusted(LastNamed(channels, name), model)
    ensures ModelRows(rows, local, channels, model, |FIELDS|)
  {
    rows := map[];
    for n := 0 to |FIELDS|
      invariant ModelRows(rows, local, channels, model, n)
    {
      var item, shouldInclude := BuildItem(local, channels, confidenceMaps, FIELDS[n], model);
      assert FIELDS[..n + 1] == FIELDS[..n] + [FIELDS[n]];
      if shouldInclude {
        rows := rows[FIELDS[n] := item];
      }
    }
  }

  /** The first pass. */
  method BuildRaw(local: Table, channels: seq<Channel>) returns (differences: Comparison)
    ensures IsUnpruned(differences, local, channels)
  {
    var models := AllModels(local, channels);
    var confidenceMaps := ConfidenceMaps(channels, models);
    differences := BuildRows(local, channels, confidenceMaps, models);
    AllAreModels(local, channels, models);
    RowsAreUnpruned(differences, models, local, channels);
  }

  /** The loop over the models. */
  method BuildRows(local: Table, channels: seq<Channel>, confidenceMaps: map<string, map<string, bool>>,
                   models: set<string>)
    returns (differences: Comparison)
    requires confidenceMaps.Keys == Names(channels)
    requires forall name <- confidenceMaps ::
               confidenceMaps[name] == map model | model in models :: Trusted(LastNamed(channels, name), model)
    ensures differences.Keys <= models
    ensures forall model <- models :: ModelRows(RowsOf(differences, model), local, channels, model, |FIELDS|)
  {
    differences := map[];
    var rest := models;
    while rest != {}
      invariant rest <= models && differences.Keys <= models - rest
      invariant forall model <- models - rest ::
                  ModelRows(RowsOf(differences, model), local, channels, model, |FIELDS|)
    {
      var model :| model in rest;
      rest := rest - {model};
      var rows := BuildModel(local, channels, confidenceMaps, model);
      differences := AddRows(differences, model, rows);
    }
  }

  /** Stores the rows of a new model, if it has any. */
  method AddRows(d: Comparison, model: string, rows: map<string, Item>) returns (after: Comparison)
    requires model !in d
    ensures after.Keys <= d.Keys + {model}
    ensures forall m: string :: RowsOf(after, m) == if m == model then rows else RowsOf(d, m)
  {
    after := if rows == map[] then d else d[model := rows];
  }

  lemma AllAreModels(local: Table, channels: seq<Channel>, models: set<string>)
    requires forall model :: model in models <==>
               IsModelIn(local, model) || exists i :: 0 <= i < |channels| && IsModelIn(channels[i].data, model)
    ensures forall model, field :: field in FIELDS && Included(local, channels, field, model) ==> model in models
  {
    forall model, field | field in FIELDS && Included(local, channels, field, model)
      ensures model in models
    {
      IncludedIsModel(local, channels, field, model);
    }
  }

  lemma RowsAreUnpruned(d: Comparison, models: set<string>, local: Table, channels: seq<Channel>)
    requires d.Keys <= models
    requires forall model <- models :: ModelRows(RowsOf(d, model), local, channels, model, |FIELDS|)
    requires forall model, field :: field in FIELDS && Included(local, channels, field, model) ==> model in models
    ensures IsUnpruned(d, local, channels)
  {
    assert FIELDS[..|FIELDS|] == FIELDS;
    forall model, field
      ensures HasRow(d, model, field) <==> field in FIELDS && Included(local, channels, field, model)
      ensures HasRow(d, model, field) ==> d[model][field] == ItemOf(local, channels, field, model)
    {
      assert HasRow(d, model, field) <==> field in RowsOf(d, model);
    }
  }

  lemma IncludedIsModel(local: Table, channels: seq<Channel>, field: string, model: string)
    requires field in FIELDS && Included(local, channels, field, model)
    ensures exists i :: 0 <= i < |channels| && IsModelIn(channels[i].data, model)
  {
  }

  /** The second pass: the channels with a telling cell. */
  method FindDifferent(d: Comparison) returns (channelHasDiff: set<string>)
    ensures channelHasDiff == Different(d)
  {
    channelHasDiff := {};
    var models := d.Keys;
    while models != {}
      invariant models <= d.Keys
      invariant channelHasDiff == Different(d - models)
    {
      var model :| model in models;
      ghost var before := channelHasDiff;
      ghost var seen := d - models;
      models := models - {model};
      var fields := d[model].Keys;
      while fields != {}
        invariant fields <= d[model].Keys
        invariant channelHasDiff == before + DifferentIn(d[model] - fields)
      {
        var field :| field in fields;
        DifferentInPush(d[model] - fields, field, d[model][field]);
        assert d[model] - (fields - {field}) == (d[model] - fields)[field := d[model][field]];
        fields := fields - {field};
        var upstreams := d[model][field].upstreams;
        channelHasDiff := channelHasDiff + set name | name in upstreams && Telling(upstreams[name]);
      }
      assert d[model] - fields == d[model];
      assert channelHasDiff == before + DifferentIn(d[model]);
      assert d - models == seen[model := d[model]];
      DifferentPush(seen, model, d[model]);
    }
    assert d - models == d;
  }

  function DifferentIn(rows: map<string, Item>): set<string> {
    set field, name | field in rows && name in rows[field].upstreams && Telling(rows[field].upstreams[name]) :: name
  }

  lemma DifferentInPush(rows: map<string, Item>, field: string, item: Item)
    requires field !in rows
    ensures DifferentIn(rows[field := item]) ==
            DifferentIn(rows) + set name | name in item.upstreams && Telling(item.upstreams[name])
  {
    var more := rows[field := item];
    forall name | name in DifferentIn(rows)
      ensures name in DifferentIn(more)
    {
      var f :| f in rows && name in rows[f].upstreams && Telling(rows[f].upstreams[name]);
      assert f in more && name in more[f].upstreams;
    }
    forall name | name in item.upstreams && Telling(item.upstreams[name])
      ensures name in DifferentIn(more)
    {
      assert field in more && name in more[field].upstreams;
    }
  }

  lemma DifferentPush(d: Comparison, model: string, rows: map<string, Item>)
    requires model !in d
    ensures Different(d[model := rows]) == Different(d) + DifferentIn(rows)
  {
    var e := d[model := rows];
    forall name | name in Different(d)
      ensures name in Different(e)
    {
      var m, f :| m in d && f in d[m] && name in d[m][f].upstreams && Telling(d[m][f].upstreams[name]);
      assert m in e && f in e[m] && name in e[m][f].upstreams;
    }
    forall name | name in DifferentIn(rows)
      ensures name in Different(e)
    {
      var f :| f in rows && name in rows[f].upstreams && Telling(rows[f].upstreams[name]);
      assert model in e && f in e[model] && name in e[model][f].upstreams;
    }
  }

  /** The third pass over one model's rows. */
  method PruneModel(rows: map<string, Item>, channelHasDiff: set<string>) returns (kept: map<string, Item>)
    ensures kept == PrunedRows(rows, channelHasDiff)
  {
    kept := rows;
    var fields := rows.Keys;
    while fields != {}
      invariant fields <= rows.Keys
      invariant forall field :: field in kept <==>
                  field in rows && (field in fields || Worthwhile(rows[field], channelHasDiff))
      invariant forall field <- kept ::
                  kept[field] == if field in fields then rows[field] else Restricted(rows[field], channelHasDiff)
    {
      var field :| field in fields;
      fields := fields - {field};
      var item := rows[field];
      var upstreams, confidence := item.upstreams, item.confidence;
      var dropped := set name | name in item.upstreams && name !in channelHasDiff;
      upstreams := upstreams - dropped;
      confidence := map name | name in confidence && name in channelHasDiff :: confidence[name];
      var allSame := forall name <- upstreams :: upstreams[name] == SAME;
      assert allSame <==> !Worthwhile(item, channelHasDiff) by {
        if !allSame {
          var name :| name in upstreams && upstreams[name] != SAME;
          assert name in item.upstreams && name in channelHasDiff && item.upstreams[name] != SAME;
        }
        if Worthwhile(item, channelHasDiff) {
          var name :| name in item.upstreams && name in channelHasDiff && item.upstreams[name] != SAME;
          assert name in upstreams;
        }
      }
      assert upstreams == map[] ==> allSame;
      assert item.(upstreams := upstreams, confidence := confidence) == Restricted(item, channelHasDiff);
      if upstreams == map[] || allSame {
        kept := kept - {field};
      } else {
        kept := kept[field := item.(upstreams := upstreams, confidence := confidence)];
      }
    }
  }

  /** Stores a model's rows, or drops the model when none are left. */
  method SetRows(d: Comparison, model: string, rows: map<string, Item>) returns (after: Comparison)
    ensures after.Keys == if rows == map[] then d.Keys - {model} else d.Keys + {model}
    ensures forall m: string :: RowsOf(after, m) == if m == model then rows else RowsOf(d, m)
  {
    after := if rows == map[] then d - {model} else d[model := rows];
  }

  /** The third pass. */
  method Prune(built: Comparison, channelHasDiff: set<string>) returns (differences: Comparison)
    ensures IsPruned(differences, built, channelHasDiff)
  {
    differences := built;
    var models := built.Keys;
    while models != {}
      invariant models <= built.Keys && differences.Keys <= built.Keys
      invariant forall m <- built ::
                  RowsOf(differences, m) == if m in models then built[m] else PrunedRows(built[m], channelHasDiff)
      invariant forall m: string :: m in differences && m !in models ==> RowsOf(differences, m) != map[]
    {
      var model :| model in models;
      models := models - {model};
      var rows := PruneModel(built[model], channelHasDiff);
      differences := SetRows(differences, model, rows);
    }
    assert forall m <- differences :: RowsOf(differences, m) == differences[m];
  }

  /** The comparison of the local tables with the channels: the unpruned table, pruned by its own telling
      columns. */
  ghost predicate IsComparison(d: Comparison, local: Table, channels: seq<Channel>) {
    exists raw: Comparison :: IsUnpruned(raw, local, channels) && IsPruned(d, raw, Different(raw))
  }

  /** `buildDifferences`. */
  method BuildDifferences(local: Table, channels: seq<Channel>) returns (differences: Comparison)
    ensures IsComparison(differences, local, channels)
  {
    var built := BuildRaw(local, channels);
    var channelHasDiff := FindDifferent(built);
    differences := Prune(built, channelHasDiff);
  }
}
