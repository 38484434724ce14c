/** What the comparison table tells its reader: exactly the differences, and exactly the channels that have
    one. */
module RatioSyncMeaning {
  import opened Basics
  import opened RatioSync

  /** A channel supplies a value that the local tables lack or contradict. */
  predicate DiffersAt(local: Table, c: Channel, field: string, model: string) {
    var ours, theirs := Entry(local, field, model), Entry(c.data, field, model);
    theirs.Some? && (ours.None? || !ValuesEqual(ours.value, theirs.value))
  }

  predicate AnyDiffersAt(local: Table, channels: seq<Channel>, field: string, model: string) {
    exists i :: 0 <= i < |channels| && DiffersAt(local, channels[i], field, model)
  }

  /** No null entries, and one channel per name. */
  ghost predicate Regular(local: Table, channels: seq<Channel>) {
    && (forall field, model :: Entry(local, field, model) != Some(Null))
    && (forall i, field, model :: 0 <= i < |channels| ==> Entry(channels[i].data, field, model) != Some(Null))
    && (forall i, j :: 0 <= i < j < |channels| ==> channels[i].name != channels[j].name)
  }

  /** No upstream entry reads "same", the mark for an agreeing cell. */
  ghost predicate NoneReadsSame(channels: seq<Channel>) {
    forall i, field, model :: 0 <= i < |channels| ==> Entry(channels[i].data, field, model) != Some(SAME)
  }

  /** A difference that the mark does not hide. */
  predicate VisibleAt(local: Table, c: Channel, field: string, model: string) {
    DiffersAt(local, c, field, model) && Entry(c.data, field, model) != Some(SAME)
  }

  lemma LocalIsEntry(local: Table, channels: seq<Channel>, field: string, model: string)
    requires Regular(local, channels)
    ensures LocalValue(local, field, model).Null? <==> Entry(local, field, model).None?
    ensures Entry(local, field, model).Some? ==> Entry(local, field, model) == Some(LocalValue(local, field, model))
  {
    assert Entry(local, field, model) != Some(Null);
  }

  lemma {:induction false} NamedChannel(local: Table, channels: seq<Channel>, i: nat)
    requires Regular(local, channels) && i < |channels|
    ensures channels[i].name in Names(channels) && LastNamed(channels, channels[i].name) == channels[i]
    decreases |channels|
  {
    var name := channels[i].name;
    assert name in Names(channels);
    if i < |channels| - 1 {
      var init := channels[..|channels| - 1];
      assert init[i] == channels[i];
      assert Regular(local, init);
      NamedChannel(local, init, i);
    }
  }

  lemma IncludedMeansDiffers(local: Table, channels: seq<Channel>, field: string, model: string)
    requires Regular(local, channels)
    ensures Included(local, channels, field, model) <==> AnyDiffersAt(local, channels, field, model)
  {
    LocalIsEntry(local, channels, field, model);
    var lv := LocalValue(local, field, model);
    forall i | 0 <= i < |channels|
      ensures (if lv.Null? then Entry(channels[i].data, field, model).Some?
               else Differs(lv, Entry(channels[i].data, field, model)))
              <==> DiffersAt(local, channels[i], field, model)
    {
      assert Entry(channels[i].data, field, model) != Some(Null);
    }
  }

  /** What a cell shows, and when it is telling. */
  lemma CellMeaning(local: Table, channels: seq<Channel>, i: nat, field: string, model: string)
    requires Regular(local, channels) && i < |channels|
    ensures channels[i].name in Names(channels)
    ensures Columns(local, channels, field, model)[channels[i].name] ==
            Shown(LocalValue(local, field, model), Entry(channels[i].data, field, model))
    ensures Telling(Columns(local, channels, field, model)[channels[i].name]) <==>
            VisibleAt(local, channels[i], field, model)
    ensures Columns(local, channels, field, model)[channels[i].name] != SAME <==>
            VisibleAt(local, channels[i], field, model) ||
            (Entry(local, field, model).Some? && Entry(channels[i].data, field, model).None?)
  {
    NamedChannel(local, channels, i);
    LocalIsEntry(local, channels, field, model);
    assert Entry(channels[i].data, field, model) != Some(Null);
  }

  /** A cell tells whether its channel differs, except exactly where the channel's value reads "same" and the
      local one does not: there a difference is reported as agreement. */
  lemma CellIsTruthful(local: Table, channels: seq<Channel>, i: nat, field: string, model: string)
    requires Regular(local, channels) && i < |channels|
    ensures channels[i].name in Names(channels)
    ensures (Telling(Columns(local, channels, field, model)[channels[i].name]) <==>
             DiffersAt(local, channels[i], field, model))
            <==> (Entry(channels[i].data, field, model) == Some(SAME) ==> Entry(local, field, model) == Some(SAME))
  {
    CellMeaning(local, channels, i, field, model);
  }

  ghost predicate HasVisible(local: Table, c: Channel) {
    exists field, model :: field in FIELDS && VisibleAt(local, c, field, model)
  }

  /** The kept columns are the channels with a visible difference somewhere. */
  lemma KeptColumns(local: Table, channels: seq<Channel>, raw: Comparison)
    requires Regular(local, channels) && IsUnpruned(raw, local, channels)
    ensures forall i :: 0 <= i < |channels| ==>
              (channels[i].name in Different(raw) <==> HasVisible(local, channels[i]))
    ensures Different(raw) <= Names(channels)
  {
    forall i | 0 <= i < |channels|
      ensures channels[i].name in Different(raw) <==> HasVisible(local, channels[i])
    {
      var name := channels[i].name;
      if name in Different(raw) {
        var model, field :| model in raw && field in raw[model] && name in raw[model][field].upstreams &&
                            Telling(raw[model][field].upstreams[name]);
        assert HasRow(raw, model, field);
        CellMeaning(local, channels, i, field, model);
      }
      if HasVisible(local, channels[i]) {
        var field, model :| field in FIELDS && VisibleAt(local, channels[i], field, model);
        IncludedMeansDiffers(local, channels, field, model);
        assert HasRow(raw, model, field);
        CellMeaning(local, channels, i, field, model);
        assert name in raw[model][field].upstreams;
      }
    }
    forall name | name in Different(raw)
      ensures name in Names(channels)
    {
      var model, field :| model in raw && field in raw[model] && name in raw[model][field].upstreams &&
                          Telling(raw[model][field].upstreams[name]);
      assert HasRow(raw, model, field);
    }
  }

  /** Channel `c` keeps a row alive: it has a column, and something other than agreement in it. */
  ghost predicate Supports(local: Table, c: Channel, field: string, model: string) {
    && HasVisible(local, c)
    && (VisibleAt(local, c, field, model) || (Entry(local, field, model).Some? && Entry(c.data, field, model).None?))
  }

  lemma WorthwhileMeaning(local: Table, channels: seq<Channel>, kept: set<string>, field: string, model: string)
    requires Regular(local, channels)
    requires forall i :: 0 <= i < |channels| ==> (channels[i].name in kept <==> HasVisible(local, channels[i]))
    ensures Worthwhile(ItemOf(local, channels, field, model), kept) <==>
            exists i :: 0 <= i < |channels| && Supports(local, channels[i], field, model)
  {
    var item := ItemOf(local, channels, field, model);
    if Worthwhile(item, kept) {
      var name :| name in item.upstreams && name in kept && item.upstreams[name] != SAME;
      var i :| 0 <= i < |channels| && channels[i].name == name;
      CellMeaning(local, channels, i, field, model);
      assert Supports(local, channels[i], field, model);
    }
    if i :| 0 <= i < |channels| && Supports(local, channels[i], field, model) {
      CellMeaning(local, channels, i, field, model);
      assert channels[i].name in item.upstreams;
    }
  }

  lemma PrunedRow(local: Table, channels: seq<Channel>, raw: Comparison, d: Comparison, field: string, model: string)
    requires Regular(local, channels) && IsUnpruned(raw, local, channels) && IsPruned(d, raw, Different(raw))
    ensures HasRow(d, model, field) <==>
              && field in FIELDS && AnyDiffersAt(local, channels, field, model)
              && exists i :: 0 <= i < |channels| && Supports(local, channels[i], field, model)
    ensures HasRow(d, model, field) ==>
              d[model][field] == Restricted(ItemOf(local, channels, field, model), Different(raw))
  {
    IncludedMeansDiffers(local, channels, field, model);
    KeptColumns(local, channels, raw);
    WorthwhileMeaning(local, channels, Different(raw), field, model);
    assert model in raw ==> RowsOf(d, model) == PrunedRows(raw[model], Different(raw));
    if HasRow(raw, model, field) {
      assert raw[model][field] == ItemOf(local, channels, field, model);
      assert HasRow(d, model, field) <==> field in RowsOf(d, model);
    }
  }

  /** Which rows survive, for any values: those with a difference that some channel supports. */
  lemma RowSurvives(local: Table, channels: seq<Channel>, d: Comparison, field: string, model: string)
    requires Regular(local, channels) && IsComparison(d, local, channels)
    ensures HasRow(d, model, field) <==>
              && field in FIELDS && AnyDiffersAt(local, channels, field, model)
              && exists i :: 0 <= i < |channels| && Supports(local, channels[i], field, model)
  {
    var raw: Comparison :| IsUnpruned(raw, local, channels) && IsPruned(d, raw, Different(raw));
    PrunedRow(local, channels, raw, d, field, model);
  }

  ghost predicate HasDifference(local: Table, c: Channel) {
    exists field, model :: field in FIELDS && DiffersAt(local, c, field, model)
  }

  /** Where no upstream value reads "same", every difference is visible and supports its row. */
  lemma AllVisible(local: Table, channels: seq<Channel>, i: nat, field: string, model: string)
    requires NoneReadsSame(channels) && i < |channels|
    ensures VisibleAt(local, channels[i], field, model) <==> DiffersAt(local, channels[i], field, model)
    ensures HasVisible(local, channels[i]) <==> HasDifference(local, channels[i])
    ensures field in FIELDS && DiffersAt(local, channels[i], field, model) ==>
              Supports(local, channels[i], field, model)
  {
    assert forall f, m :: Entry(channels[i].data, f, m) != Some(SAME);
    if HasDifference(local, channels[i]) {
      var f, m :| f in FIELDS && DiffersAt(local, channels[i], f, m);
      assert VisibleAt(local, channels[i], f, m);
    }
    if field in FIELDS && DiffersAt(local, channels[i], field, model) {
      assert VisibleAt(local, channels[i], field, model);
    }
  }

  /** The table the program returns has a row for a (model, field) pair exactly when some channel differs
      there; its columns are exactly the channels that differ anywhere; each cell shows the channel's value
      where it differs, "same" where it agrees, and nothing where the channel is silent about a local value. */
  lemma TableIsExact(local: Table, channels: seq<Channel>, d: Comparison, field: string, model: string, i: nat)
    requires Regular(local, channels) && NoneReadsSame(channels) && IsComparison(d, local, channels)
    requires i < |channels|
    ensures HasRow(d, model, field) <==> field in FIELDS && AnyDiffersAt(local, channels, field, model)
    ensures HasRow(d, model, field) ==>
              var item, c := d[model][field], channels[i];
              var ours, theirs := Entry(local, field, model), Entry(c.data, field, model);
              && (item.current == if ours.Some? then ours.value else Null)
              && (c.name in item.upstreams <==> HasDifference(local, c))
              && (c.name in item.upstreams ==>
                   c.name in item.confidence && item.confidence[c.name] == Trusted(c, model) &&
                   item.upstreams[c.name] ==
                     if DiffersAt(local, c, field, model) then theirs.value
                     else if theirs.Some? || ours.None? then SAME else Null)
              && item.upstreams.Keys <= Names(channels)
  {
    var raw: Comparison :| IsUnpruned(raw, local, channels) && IsPruned(d, raw, Different(raw));
    PrunedRow(local, channels, raw, d, field, model);
    if field in FIELDS && AnyDiffersAt(local, channels, field, model) {
      var j :| 0 <= j < |channels| && DiffersAt(local, channels[j], field, model);
      AllVisible(local, channels, j, field, model);
    }
    KeptColumns(local, channels, raw);
    AllVisible(local, channels, i, field, model);
    CellMeaning(local, channels, i, field, model);
    NamedChannel(local, channels, i);
    LocalIsEntry(local, channels, field, model);
    assert Entry(channels[i].data, field, model) != Some(Null);
  }

  lemma SameTellsNothing(local: Table, channels: seq<Channel>, field: string, model: string, name: string)
    requires forall i :: 0 <= i < |channels| ==> Entry(channels[i].data, field, model) in {None, Some(SAME)}
    requires name in Names(channels)
    ensures !Telling(Columns(local, channels, field, model)[name])
  {
    LastIsMember(channels, name);
  }

  lemma NothingTells(local: Table, channels: seq<Channel>, raw: Comparison)
    requires forall i, field, model :: 0 <= i < |channels| ==>
               Entry(channels[i].data, field, model) in {None, Some(SAME)}
    requires IsUnpruned(raw, local, channels)
    ensures Different(raw) == {}
  {
    forall m, f, n | m in raw && f in raw[m] && n in raw[m][f].upstreams
      ensures !Telling(raw[m][f].upstreams[n])
    {
      assert HasRow(raw, m, f);
      SameTellsNothing(local, channels, f, m, n);
    }
  }

  lemma NothingIsKept(raw: Comparison, d: Comparison)
    requires IsPruned(d, raw, {})
    ensures d == map[]
  {
    forall m | m in raw
      ensures RowsOf(d, m) == map[]
    {
      assert PrunedRows(raw[m], {}) == map[];
    }
    forall m: string
      ensures m !in d
    {
      RowsOfMember(d, m);
    }
  }

  /** Without the proviso differences are lost: where every upstream value reads "same" the table is empty,
      whatever the local values are. */
  lemma SameIsLost(local: Table, channels: seq<Channel>, d: Comparison)
    requires forall i, field, model :: 0 <= i < |channels| ==>
               Entry(channels[i].data, field, model) in {None, Some(SAME)}
    requires IsComparison(d, local, channels)
    ensures d == map[]
  {
    var raw: Comparison :| IsUnpruned(raw, local, channels) && IsPruned(d, raw, Different(raw));
    NothingTells(local, channels, raw);
    NothingIsKept(raw, d);
  }

  lemma RowsOfMember(d: Comparison, m: string)
    ensures m in d ==> RowsOf(d, m) == d[m]
  {
  }

  lemma {:induction false} LastIsMember(channels: seq<Channel>, name: string)
    requires name in Names(channels)
    ensures exists i :: 0 <= i < |channels| && channels[i] == LastNamed(channels, name)
    decreases |channels|
  {
    var init := channels[..|channels| - 1];
    if channels[|channels| - 1].name != name {
      assert forall i :: 0 <= i < |init| ==> init[i] == channels[i];
      LastIsMember(init, name);
      var i :| 0 <= i < |init| && init[i] == LastNamed(init, name);
      assert channels[i] == LastNamed(channels, name);
    }
  }
}
