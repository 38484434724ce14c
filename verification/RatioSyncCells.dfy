/** What the comparison shows for given local and upstream values, written out: numbers agree when they are less
    than a billionth apart, anything else when it is the same. */
module RatioSyncCells {
  import opened Basics
  import opened RatioSync
  import opened RatioSyncMeaning

  predicate Gives(t: Table, field: string, model: string, v: Value) {
    field in t && model in t[field] && t[field][model] == v
  }

  predicate Lacks(t: Table, field: string, model: string) {
    field !in t || model !in t[field]
  }

  /** Two values agree. */
  predicate Agree(a: Value, b: Value) {
    match a
    case Num(x) => b.Num? && x - b.number < 0.000000001 && b.number - x < 0.000000001
    case Str(s) => b == Str(s)
    case Null => b == Null
  }

  /** The cell of channel `c` in the row of a model and a field. */
  predicate ShownAs(d: Comparison, field: string, model: string, c: Channel, v: Value) {
    HasRow(d, model, field) && c.name in d[model][field].upstreams && d[model][field].upstreams[c.name] == v
  }

  lemma EntryExactly(t: Table, field: string, model: string, v: Value)
    ensures Entry(t, field, model) == Some(v) <==> Gives(t, field, model, v)
    ensures Entry(t, field, model) == None <==> Lacks(t, field, model)
  {
  }

  lemma AgreeExactly(a: Value, b: Value)
    ensures ValuesEqual(a, b) <==> Agree(a, b)
  {
  }

  /** The fields that are compared. */
  lemma FieldsAre(field: string)
    ensures field in FIELDS <==>
            field in {"model_ratio", "completion_ratio", "cache_ratio", "create_cache_ratio", "image_ratio",
                      "audio_ratio", "audio_completion_ratio", "model_price", "billing_mode", "billing_expr"}
  {
    assert FIELDS == ["model_ratio", "completion_ratio", "cache_ratio", "create_cache_ratio", "image_ratio",
                      "audio_ratio", "audio_completion_ratio", "model_price", "billing_mode", "billing_expr"];
  }

  lemma VisibleIsShown(local: Table, channels: seq<Channel>, d: Comparison, field: string, model: string, i: nat)
    requires Regular(local, channels) && IsComparison(d, local, channels) && i < |channels| && field in FIELDS
    requires VisibleAt(local, channels[i], field, model)
    ensures ShownAs(d, field, model, channels[i], Entry(channels[i].data, field, model).value)
    ensures d[model][field].current == LocalValue(local, field, model)
  {
    var raw: Comparison :| IsUnpruned(raw, local, channels) && IsPruned(d, raw, Different(raw));
    assert HasVisible(local, channels[i]) && Supports(local, channels[i], field, model);
    KeptColumns(local, channels, raw);
    PrunedRow(local, channels, raw, d, field, model);
    CellMeaning(local, channels, i, field, model);
    LocalIsEntry(local, channels, field, model);
  }

  /** A value that does not agree with the local one, or that the local tables lack, is shown, in a row of its own
      and next to the local value; only the text "same" cannot be told from agreement. */
  lemma DifferenceIsShown(local: Table, channels: seq<Channel>, d: Comparison, field: string, model: string, i: nat,
                          ours: Option<Value>, theirs: Value)
    requires Regular(local, channels) && IsComparison(d, local, channels) && i < |channels| && field in FIELDS
    requires if ours.Some? then Gives(local, field, model, ours.value) else Lacks(local, field, model)
    requires Gives(channels[i].data, field, model, theirs) && theirs != Str("same")
    requires ours.Some? ==> !Agree(ours.value, theirs)
    ensures ShownAs(d, field, model, channels[i], theirs)
    ensures d[model][field].current == if ours.Some? then ours.value else Null
  {
    EntryExactly(channels[i].data, field, model, theirs);
    if ours.Some? {
      EntryExactly(local, field, model, ours.value);
      AgreeExactly(ours.value, theirs);
    } else {
      EntryExactly(local, field, model, theirs);
    }
    VisibleIsShown(local, channels, d, field, model, i);
  }

  /** Two numbers at least a billionth apart are a difference. */
  lemma NumbersApart(local: Table, channels: seq<Channel>, d: Comparison, field: string, model: string, i: nat,
                     x: real, y: real)
    requires Regular(local, channels) && IsComparison(d, local, channels) && i < |channels| && field in FIELDS
    requires Gives(local, field, model, Num(x)) && Gives(channels[i].data, field, model, Num(y))
    requires x - y >= 0.000000001 || y - x >= 0.000000001
    ensures ShownAs(d, field, model, channels[i], Num(y)) && d[model][field].current == Num(x)
  {
    DifferenceIsShown(local, channels, d, field, model, i, Some(Num(x)), Num(y));
  }

  lemma CellInRow(local: Table, channels: seq<Channel>, d: Comparison, field: string, model: string, i: nat)
    requires Regular(local, channels) && IsComparison(d, local, channels) && i < |channels|
    requires HasRow(d, model, field) && channels[i].name in d[model][field].upstreams
    ensures d[model][field].upstreams[channels[i].name] ==
            Shown(LocalValue(local, field, model), Entry(channels[i].data, field, model))
    ensures channels[i].name in d[model][field].confidence
    ensures d[model][field].confidence[channels[i].name] == Trusted(channels[i], model)
  {
    var raw: Comparison :| IsUnpruned(raw, local, channels) && IsPruned(d, raw, Different(raw));
    PrunedRow(local, channels, raw, d, field, model);
    CellMeaning(local, channels, i, field, model);
    NamedChannel(local, channels, i);
  }

  /** Wherever else a channel has a cell: agreement reads "same", as does silence about a value the local tables
      lack too; silence about a local value is an empty cell. */
  lemma RestOfRow(local: Table, channels: seq<Channel>, d: Comparison, field: string, model: string, i: nat,
                  ours: Value, theirs: Value)
    requires Regular(local, channels) && IsComparison(d, local, channels) && i < |channels|
    requires HasRow(d, model, field) && channels[i].name in d[model][field].upstreams
    ensures Gives(local, field, model, ours) && Gives(channels[i].data, field, model, theirs) && Agree(ours, theirs) ==>
              ShownAs(d, field, model, channels[i], Str("same"))
    ensures Lacks(local, field, model) && Lacks(channels[i].data, field, model) ==>
              ShownAs(d, field, model, channels[i], Str("same"))
    ensures Gives(local, field, model, ours) && Lacks(channels[i].data, field, model) ==>
              ShownAs(d, field, model, channels[i], Null)
  {
    CellInRow(local, channels, d, field, model, i);
    EntryExactly(local, field, model, ours);
    EntryExactly(channels[i].data, field, model, theirs);
    AgreeExactly(ours, theirs);
    assert Entry(local, field, model) != Some(Null);
  }

  /** The channel gives nothing, or a value that agrees with the local one. */
  predicate Concurs(local: Table, c: Channel, field: string, model: string) {
    || Lacks(c.data, field, model)
    || (!Lacks(local, field, model) && Agree(local[field][model], c.data[field][model]))
  }

  /** A model and field on which all channels concur has no row. */
  lemma AgreementHasNoRow(local: Table, channels: seq<Channel>, d: Comparison, field: string, model: string)
    requires Regular(local, channels) && IsComparison(d, local, channels)
    requires forall i :: 0 <= i < |channels| ==> Concurs(local, channels[i], field, model)
    ensures !HasRow(d, model, field)
  {
    RowSurvives(local, channels, d, field, model);
    if i :| 0 <= i < |channels| && DiffersAt(local, channels[i], field, model) {
      ConcursMeansNoDifference(local, channels[i], field, model);
      assert false;
    }
  }

  lemma ConcursMeansNoDifference(local: Table, c: Channel, field: string, model: string)
    requires Concurs(local, c, field, model)
    ensures !DiffersAt(local, c, field, model)
  {
    if !Lacks(c.data, field, model) {
      AgreeExactly(local[field][model], c.data[field][model]);
    }
  }

  /** Of a channel in a row it is noted that its prices for the model are not to be trusted exactly if its ratio is
      37.5 and its completion ratio 1, up to a billionth. */
  lemma UntrustedExactly(local: Table, channels: seq<Channel>, d: Comparison, field: string, model: string, i: nat)
    requires Regular(local, channels) && IsComparison(d, local, channels) && i < |channels|
    requires HasRow(d, model, field) && channels[i].name in d[model][field].upstreams
    ensures channels[i].name in d[model][field].confidence
    ensures !d[model][field].confidence[channels[i].name] <==> HasPlaceholder(channels[i].data, model)
  {
    CellInRow(local, channels, d, field, model, i);
    TrustedExactly(channels[i], model);
  }

  lemma TrustedExactly(c: Channel, model: string)
    ensures !Trusted(c, model) <==> HasPlaceholder(c.data, model)
  {
    var t: Table := c.data;
    if !Trusted(c, model) {
      assert IsPlaceholder(t, model, t["model_ratio"][model].number, t["completion_ratio"][model].number);
    }
  }

  ghost predicate HasPlaceholder(t: Table, model: string) {
    exists x, y :: IsPlaceholder(t, model, x, y)
  }

  predicate IsPlaceholder(t: Table, model: string, x: real, y: real) {
    && Gives(t, "model_ratio", model, Num(x)) && Gives(t, "completion_ratio", model, Num(y))
    && 37.499999999 < x < 37.500000001 && 0.999999999 < y < 1.000000001
  }

  /** Of several channels of one name the last one counts. */
  lemma {:induction false} LastCounts(channels: seq<Channel>, name: string)
    requires name in Names(channels)
    ensures exists i :: 0 <= i < |channels| && channels[i] == LastNamed(channels, name) && channels[i].name == name &&
                        forall j :: i < j < |channels| ==> channels[j].name != name
    decreases |channels|
  {
    var init := channels[..|channels| - 1];
    if channels[|channels| - 1].name == name {
      assert channels[|channels| - 1] == LastNamed(channels, name);
    } else {
      assert forall i :: 0 <= i < |init| ==> init[i] == channels[i];
      LastCounts(init, name);
      var i :| 0 <= i < |init| && init[i] == LastNamed(init, name) && init[i].name == name &&
               forall j :: i < j < |init| ==> init[j].name != name;
      assert channels[i] == LastNamed(channels, name);
    }
  }
}
