/** Choosing one price per model from several providers: the cheapest non-zero input cost, where two costs
    less than an epsilon apart count as equal although that relation is not transitive. */
module ModelsDev {
  import opened Basics
  import opened RatioSync

  /** A decoded JSON number: Go floats include values that are not prices. */
  datatype Float = NaN | Inf | Finite(value: real)

  datatype Cost = Cost(input: Option<Float>, output: Option<Float>, cacheRead: Option<Float>)

  datatype Candidate = Candidate(provider: string, input: real, output: Option<real>, cacheRead: Option<real>)

  predicate ValidCost(v: Float) {
    v.Finite? && v.value >= 0.0
  }

  function BuildCandidate(provider: string, cost: Cost): (c: Option<Candidate>)
    ensures c.Some? <==>
              && cost.input.Some? && cost.input.value.Finite? && 0.0 <= cost.input.value.value
              && (cost.output.Some? ==>
                   && cost.output.value.Finite? && 0.0 <= cost.output.value.value
                   && (0.0 < cost.output.value.value ==> 0.0 < cost.input.value.value))
    ensures c.Some? ==>
              && c.value.provider == provider && Some(Finite(c.value.input)) == cost.input && c.value.input >= 0.0
              && (cost.output.Some? <==> c.value.output.Some?)
              && (cost.output.Some? ==> cost.output.value == Finite(c.value.output.value))
              && (c.value.cacheRead.Some? <==>
                   cost.cacheRead.Some? && cost.cacheRead.value.Finite? && 0.0 <= cost.cacheRead.value.value)
              && (c.value.cacheRead.Some? ==> cost.cacheRead.value == Finite(c.value.cacheRead.value))
  {
    if cost.input.None? || !ValidCost(cost.input.value) then None
    else if cost.output.Some? && !ValidCost(cost.output.value) then None
    else if cost.input.value.value == 0.0 && cost.output.Some? && cost.output.value.value > 0.0 then None
    else
      Some(Candidate(provider, cost.input.value.value,
        if cost.output.Some? then Some(cost.output.value.value) else None,
        if cost.cacheRead.Some? && ValidCost(cost.cacheRead.value) then Some(cost.cacheRead.value.value) else None))
  }

  /** Byte-wise string order. */
  predicate Less(a: string, b: string) {
    if b == "" then false
    else if a == "" then true
    else a[0] < b[0] || (a[0] == b[0] && Less(a[1..], b[1..]))
  }

  lemma {:induction false} LessIsAsymmetric(a: string, b: string)
    requires Less(a, b)
    ensures !Less(b, a)
  {
    if a != "" && b != "" && a[0] == b[0] {
      LessIsAsymmetric(a[1..], b[1..]);
    }
  }

  lemma {:induction false} LessIsTransitive(a: string, b: string, c: string)
    requires Less(a, b) && Less(b, c)
    ensures Less(a, c)
  {
    if a != "" && a[0] == b[0] == c[0] {
      LessIsTransitive(a[1..], b[1..], c[1..]);
    }
  }

  lemma {:induction false} LessIsTotal(a: string, b: string)
    ensures a == b || Less(a, b) || Less(b, a)
  {
    if a != "" && b != "" && a[0] == b[0] {
      LessIsTotal(a[1..], b[1..]);
      assert a == [a[0]] + a[1..] && b == [b[0]] + b[1..];
    }
  }

  predicate ShouldReplace(current: Candidate, next: Candidate) {
    var currentNonZero, nextNonZero := current.input > 0.0, next.input > 0.0;
    if currentNonZero != nextNonZero then nextNonZero
    else if nextNonZero && !NearlyEqual(next.input, current.input) then next.input < current.input
    else Less(next.provider, current.provider)
  }

  /** The providers in the order of `sort.Strings`. */
  predicate SortedProviders(providers: seq<string>) {
    forall i, j :: 0 <= i < j < |providers| ==> Less(providers[i], providers[j])
  }

  lemma InsertKeepsOrder(sorted: seq<string>, k: nat, name: string)
    requires SortedProviders(sorted) && name !in sorted && k <= |sorted|
    requires (forall i :: 0 <= i < k ==> !Less(name, sorted[i])) && (k < |sorted| ==> Less(name, sorted[k]))
    ensures SortedProviders(sorted[..k] + [name] + sorted[k..])
  {
    forall i | 0 <= i < |sorted|
      ensures if i < k then Less(sorted[i], name) else Less(name, sorted[i])
    {
      assert sorted[i] in sorted;
      if i < k {
        LessIsTotal(sorted[i], name);
      } else if k < i {
        LessIsTransitive(name, sorted[k], sorted[i]);
      }
    }
  }

  /** `sort.Strings` over the keys of a map. */
  method SortStrings(names: set<string>) returns (sorted: seq<string>)
    ensures SortedProviders(sorted) && forall name :: name in sorted <==> name in names
  {
    sorted := [];
    var rest := names;
    while rest != {}
      invariant rest <= names && SortedProviders(sorted)
      invariant forall name :: name in sorted <==> name in names && name !in rest
    {
      var name :| name in rest;
      rest := rest - {name};
      var k := 0;
      while k < |sorted| && !Less(name, sorted[k])
        invariant 0 <= k <= |sorted| && forall i :: 0 <= i < k ==> !Less(name, sorted[i])
      {
        k := k + 1;
      }
      InsertKeepsOrder(sorted, k, name);
      assert sorted == sorted[..k] + sorted[k..];
      sorted := sorted[..k] + [name] + sorted[k..];
    }
  }

  type Upstream = map<string, map<string, Cost>>

  /** The candidate a provider offers for a model. */
  function Offer(data: Upstream, provider: string, model: string): Option<Candidate> {
    if provider in data && model in data[provider] then BuildCandidate(provider, data[provider][model]) else None
  }

  /** The candidate kept when `offer` follows `current`. */
  function Pick(current: Option<Candidate>, offer: Option<Candidate>): Option<Candidate> {
    if offer.Some? && (current.None? || ShouldReplace(current.value, offer.value)) then offer else current
  }

  /** The offers for a model, in the order of the providers. */
  function Offers(data: Upstream, providers: seq<string>, model: string): seq<Candidate> {
    if providers == [] then []
    else
      var offer := Offer(data, providers[|providers| - 1], model);
      Offers(data, providers[..|providers| - 1], model) + if offer.Some? then [offer.value] else []
  }

  /** What remains of a list of offers taken one after the other. */
  function Choose(offers: seq<Candidate>): Option<Candidate> {
    if offers == [] then None else Pick(Choose(offers[..|offers| - 1]), Some(offers[|offers| - 1]))
  }

  lemma ChoosePush(offers: seq<Candidate>, offer: Candidate)
    ensures Choose(offers + [offer]) == Pick(Choose(offers), Some(offer))
  {
    assert (offers + [offer])[..|offers|] == offers;
  }

  lemma OffersPush(data: Upstream, providers: seq<string>, n: nat, model: string)
    requires n < |providers|
    ensures Choose(Offers(data, providers[..n + 1], model)) ==
            Pick(Choose(Offers(data, providers[..n], model)), Offer(data, providers[n], model))
  {
    var offers, offer := Offers(data, providers[..n], model), Offer(data, providers[n], model);
    assert providers[..n + 1][..n] == providers[..n];
    if offer.Some? {
      ChoosePush(offers, offer.value);
    } else {
      assert offers + [] == offers;
    }
  }

  /** The inner loop: one provider's models against the selection so far. */
  method SelectFrom(before: map<string, Candidate>, provider: string, models: map<string, Cost>)
    returns (selected: map<string, Candidate>)
    ensures forall model :: Lookup(selected, model) ==
              Pick(Lookup(before, model),
                   if model in models then BuildCandidate(provider, models[model]) else None)
  {
    selected := before;
    var rest := models.Keys;
    while rest != {}
      invariant rest <= models.Keys
      invariant forall model :: Lookup(selected, model) ==
                  Pick(Lookup(before, model),
                       if model in models && model !in rest then BuildCandidate(provider, models[model]) else None)
    {
      var model :| model in rest;
      rest := rest - {model};
      assert Lookup(selected, model) == Lookup(before, model);
      var candidate := BuildCandidate(provider, models[model]);
      if candidate.Some? {
        if model !in selected || ShouldReplace(selected[model], candidate.value) {
          selected := selected[model := candidate.value];
        }
      }
    }
  }

  ghost predicate IsOrder(providers: seq<string>, data: Upstream) {
    SortedProviders(providers) && forall p :: p in providers <==> p in data
  }

  /** For every model, the offers of the sorted providers taken one after the other. */
  ghost predicate IsSelection(selected: map<string, Candidate>, data: Upstream) {
    exists order :: IsOrder(order, data) &&
                    forall model: string :: Lookup(selected, model) == Choose(Offers(data, order, model))
  }

  /** The selection loop of `convertModelsDevToRatioData`. */
  method Select(data: Upstream) returns (selected: map<string, Candidate>)
    ensures IsSelection(selected, data)
  {
    var providers := SortStrings(data.Keys);
    selected := map[];
    for n := 0 to |providers|
      invariant forall model: string :: Lookup(selected, model) == Choose(Offers(data, providers[..n], model))
    {
      assert providers[n] in providers;
      ghost var before := selected;
      selected := SelectFrom(selected, providers[n], data[providers[n]]);
      forall model: string
        ensures Lookup(selected, model) == Choose(Offers(data, providers[..n + 1], model))
      {
        OffersPush(data, providers, n, model);
        assert Lookup(selected, model) == Pick(Lookup(before, model), Offer(data, providers[n], model));
      }
    }
    assert providers[..|providers|] == providers && IsOrder(providers, data);
  }
}
