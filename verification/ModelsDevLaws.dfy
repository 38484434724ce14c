/** What the choice among providers promises: one answer for one set of prices, the first provider of its
    price, never more than an epsilon from the cheapest, and exactly when it is the cheapest. */
module ModelsDevLaws {
  import opened Basics
  import opened RatioSync
  import opened ModelsDev

  // ----- The order of names -----

  /** `a` comes before `b` where they first differ, or ends first. */
  ghost predicate ComesFirst(a: string, b: string) {
    exists k :: DiffersFirstAt(a, b, k)
  }

  predicate DiffersFirstAt(a: string, b: string, k: int) {
    && 0 <= k <= |a| && k < |b| && a[..k] == b[..k]
    && (k < |a| ==> a[k] as int < b[k] as int)
  }

  lemma DiffersLater(a: string, b: string, k: int)
    requires a != "" && b != "" && a[0] == b[0] && 0 <= k
    ensures DiffersFirstAt(a, b, k + 1) <==> DiffersFirstAt(a[1..], b[1..], k)
  {
    if k + 1 <= |a| && k + 1 <= |b| {
      assert a[..k + 1] == [a[0]] + a[1..][..k] && b[..k + 1] == [b[0]] + b[1..][..k];
    }
  }

  /** Names are compared character by character, and a prefix comes before what it begins. */
  lemma {:induction false} LessExactly(a: string, b: string)
    ensures Less(a, b) <==> ComesFirst(a, b)
    decreases |a|
  {
    if a == "" || b == "" {
      assert b != "" ==> DiffersFirstAt("", b, 0);
    } else if a[0] != b[0] {
      assert a[0] < b[0] ==> DiffersFirstAt(a, b, 0);
      forall k | DiffersFirstAt(a, b, k)
        ensures a[0] < b[0]
      {
        if k != 0 {
          assert a[..k][0] == b[..k][0];
        }
      }
    } else {
      LessExactly(a[1..], b[1..]);
      if k :| DiffersFirstAt(a[1..], b[1..], k) {
        DiffersLater(a, b, k);
      }
      if k :| DiffersFirstAt(a, b, k) {
        DiffersLater(a, b, k - 1);
      }
    }
  }

  /** A provider offers a model if it lists it with costs that make a candidate. */
  lemma OfferExactly(data: Upstream, provider: string, model: string)
    ensures Offer(data, provider, model).Some? <==>
            provider in data && model in data[provider] && BuildCandidate(provider, data[provider][model]).Some?
    ensures Offer(data, provider, model).Some? ==>
              Offer(data, provider, model) == BuildCandidate(provider, data[provider][model])
  {
  }

  // ----- The order is unique -----

  lemma {:induction false} LessIsNotSame(a: string)
    ensures !Less(a, a)
  {
    if a != "" { LessIsNotSame(a[1..]); }
  }

  lemma SortedInit(a: seq<string>, init: seq<string>, last: string)
    requires SortedProviders(a) && a == init + [last]
    ensures SortedProviders(init) && last !in init && forall x <- init :: Less(x, last)
  {
    assert a[|init|] == last && forall i :: 0 <= i < |init| ==> init[i] == a[i];
    LessIsNotSame(last);
  }

  lemma SameLast(a: seq<string>, x: string, b: seq<string>, y: string)
    requires SortedProviders(a + [x]) && SortedProviders(b + [y]) && x in b + [y] && y in a + [x]
    ensures x == y
  {
    SortedInit(a + [x], a, x);
    SortedInit(b + [y], b, y);
    if x != y {
      LessIsAsymmetric(x, y);
    }
  }

  /** Two sorted lists of the same names are the same list. */
  lemma {:induction false} SortedIsUnique(a: seq<string>, b: seq<string>)
    requires SortedProviders(a) && SortedProviders(b) && forall x :: x in a <==> x in b
    ensures a == b
    decreases |a|
  {
    HeadIn(a);
    HeadIn(b);
    if a != [] {
      var c, x := a[..|a| - 1], a[|a| - 1];
      var d, y := b[..|b| - 1], b[|b| - 1];
      assert a == c + [x] && b == d + [y];
      assert x in a && y in b;
      SameLast(c, x, d, y);
      SortedInit(a, c, x);
      SortedInit(b, d, y);
      SameInits(a, c, b, d, x);
      SortedIsUnique(c, d);
    }
  }

  lemma SameInits(a: seq<string>, c: seq<string>, b: seq<string>, d: seq<string>, x: string)
    requires a == c + [x] && b == d + [x] && x !in c && x !in d && forall z :: z in a <==> z in b
    ensures forall z :: z in c <==> z in d
  {
    forall z
      ensures z in c <==> z in d
    {
      assert z in a <==> z in c || z == x;
      assert z in b <==> z in d || z == x;
    }
  }

  lemma SelectionByOrder(selected: map<string, Candidate>, data: Upstream, order: seq<string>, model: string)
    requires IsSelection(selected, data) && IsOrder(order, data)
    ensures Lookup(selected, model) == Choose(Offers(data, order, model))
  {
    var p: seq<string> :| IsOrder(p, data) &&
                          forall m: string :: Lookup(selected, m) == Choose(Offers(data, p, m));
    SortedIsUnique(p, order);
  }

  lemma SameLookups(a: map<string, Candidate>, b: map<string, Candidate>)
    requires forall model: string :: Lookup(a, model) == Lookup(b, model)
    ensures a == b
  {
    assert forall model: string :: model in a ==> Lookup(a, model) == Some(a[model]);
    assert forall model: string :: model in b ==> Lookup(b, model) == Some(b[model]);
  }

  /** The result does not depend on anything but the data. */
  lemma SelectionIsUnique(a: map<string, Candidate>, b: map<string, Candidate>, data: Upstream)
    requires IsSelection(a, data) && IsSelection(b, data)
    ensures a == b
  {
    var order: seq<string> :| IsOrder(order, data);
    forall model: string
      ensures Lookup(a, model) == Lookup(b, model)
    {
      SelectionByOrder(a, data, order, model);
      SelectionByOrder(b, data, order, model);
    }
    SameLookups(a, b);
  }

  // ----- Offers in provider order -----

  ghost predicate InOrder(offers: seq<Candidate>) {
    && (forall i, j :: 0 <= i < j < |offers| ==> Less(offers[i].provider, offers[j].provider))
    && (forall i :: 0 <= i < |offers| ==> offers[i].input >= 0.0)
  }

  lemma {:induction false} OffersAreOffers(data: Upstream, providers: seq<string>, model: string)
    requires SortedProviders(providers)
    ensures InOrder(Offers(data, providers, model))
    ensures forall c :: c in Offers(data, providers, model) <==>
              c.provider in providers && Offer(data, c.provider, model) == Some(c)
  {
    if providers != [] {
      var init, last := providers[..|providers| - 1], providers[|providers| - 1];
      assert providers == init + [last];
      SortedInit(providers, init, last);
      OffersAreOffers(data, init, model);
      OffersAppend(Offers(data, init, model), Offer(data, last, model), last);
    }
  }

  lemma OffersAppend(offers: seq<Candidate>, offer: Option<Candidate>, last: string)
    requires InOrder(offers) && forall c <- offers :: Less(c.provider, last)
    requires offer.Some? ==> offer.value.provider == last && offer.value.input >= 0.0
    ensures InOrder(offers + if offer.Some? then [offer.value] else [])
  {
    assert forall i :: 0 <= i < |offers| ==> offers[i] in offers;
  }

  /** Offer `k` is within an epsilon of every non-zero offer, the first of its price, and zero only if all are. */
  ghost predicate Stands(offers: seq<Candidate>, k: nat)
    requires k < |offers|
  {
    && (forall i :: 0 <= i < |offers| && offers[i].input > 0.0 ==>
         0.0 < offers[k].input < offers[i].input + EPSILON)
    && (forall i :: 0 <= i < k && offers[i].input > 0.0 ==> offers[i].input > offers[k].input)
    && (offers[k].input == 0.0 ==> k == 0)
  }

  lemma StandsPush(offers: seq<Candidate>, k: nat, more: seq<Candidate>)
    requires k < |offers| && Stands(offers, k) && InOrder(more) && |more| == |offers| + 1 && more[..|offers|] == offers
    ensures if ShouldReplace(more[k], more[|offers|]) then Stands(more, |offers|) else Stands(more, k)
  {
    assert forall i :: 0 <= i < |offers| ==> more[i] == offers[i];
    LessIsAsymmetric(more[k].provider, more[|offers|].provider);
  }

  /** What is left of offers in provider order. */
  lemma {:induction false} ChoiceStands(offers: seq<Candidate>) returns (k: nat)
    requires InOrder(offers) && offers != []
    ensures k < |offers| && Stands(offers, k) && Choose(offers) == Some(offers[k])
    decreases |offers|
  {
    var init := offers[..|offers| - 1];
    if init == [] {
      k := 0;
    } else {
      k := ChoiceStands(init);
      StandsPush(init, k, offers);
      if ShouldReplace(offers[k], offers[|init|]) {
        k := |init|;
      }
    }
  }

  lemma ChoiceAmong(offers: seq<Candidate>, mine: Candidate) returns (c: Candidate)
    requires InOrder(offers) && mine in offers
    ensures Choose(offers) == Some(c) && c in offers
    ensures mine.input > 0.0 ==> 0.0 < c.input < mine.input + EPSILON
    ensures c.input == 0.0 ==> mine.input == 0.0
    ensures mine.input == c.input ==> mine == c || Less(c.provider, mine.provider)
  {
    var i :| 0 <= i < |offers| && offers[i] == mine;
    var k := ChoiceStands(offers);
    c := offers[k];
  }

  /** What a caller may rely on: the price chosen for a model is offered by some provider, is less than epsilon
      above every non-zero price offered, and is zero only when every price offered is zero. Of several
      providers at the chosen price it is the first. */
  lemma CheapestNonZero(selected: map<string, Candidate>, data: Upstream, model: string, p: string)
    requires IsSelection(selected, data) && Offer(data, p, model).Some?
    ensures model in selected && Offer(data, selected[model].provider, model) == Some(selected[model])
    ensures Offer(data, p, model).value.input > 0.0 ==>
              0.0 < selected[model].input < Offer(data, p, model).value.input + EPSILON
    ensures selected[model].input == 0.0 ==> Offer(data, p, model).value.input == 0.0
    ensures Offer(data, p, model).value.input == selected[model].input ==>
              p == selected[model].provider || Less(selected[model].provider, p)
  {
    var order: seq<string> :| IsOrder(order, data);
    SelectionByOrder(selected, data, order, model);
    OffersAreOffers(data, order, model);
    assert p in data;
    var c := ChoiceAmong(Offers(data, order, model), Offer(data, p, model).value);
  }

  // ----- When it is the cheapest -----

  function Inputs(offers: seq<Candidate>): seq<real> {
    seq(|offers|, i requires 0 <= i < |offers| => offers[i].input)
  }

  /** However the providers of these prices are named, the price chosen is `m`. */
  ghost predicate AlwaysChosen(prices: seq<real>, m: real, model: string) {
    forall data: Upstream, order: seq<string> ::
      IsOrder(order, data) && multiset(Inputs(Offers(data, order, model))) == multiset(prices) ==>
        Choose(Offers(data, order, model)).Some? && Choose(Offers(data, order, model)).value.input == m
  }

  lemma SeparatedIsChosen(offers: seq<Candidate>, prices: seq<real>, m: real)
    requires InOrder(offers) && multiset(Inputs(offers)) == multiset(prices)
    requires m in prices && 0.0 < m && forall p <- prices :: p == 0.0 || m <= p
    requires forall p <- prices :: !(m < p < m + EPSILON)
    ensures Choose(offers).Some? && Choose(offers).value.input == m
  {
    SameElements(Inputs(offers), prices, m);
    var i :| 0 <= i < |offers| && Inputs(offers)[i] == m;
    var k := ChoiceStands(offers);
    assert Inputs(offers)[k] == offers[k].input;
    SameElements(Inputs(offers), prices, offers[k].input);
  }

  lemma SameElements(a: seq<real>, b: seq<real>, x: real)
    requires multiset(a) == multiset(b)
    ensures x in a <==> x in b
  {
    assert x in multiset(a) <==> x in multiset(b);
  }

  // ----- A naming under which it is not -----

  function Name(n: nat): string {
    seq(n, _ => 'a')
  }

  lemma {:induction false} NamesAreOrdered(i: nat, j: nat)
    requires i < j
    ensures Less(Name(i), Name(j))
  {
    if i != 0 {
      NamesAreOrdered(i - 1, j - 1);
      assert Name(i)[1..] == Name(i - 1) && Name(j)[1..] == Name(j - 1);
    }
  }

  function CostOf(input: real): Cost {
    Cost(Some(Finite(input)), None, None)
  }

  /** Providers named in the order of their prices. */
  function Quoted(inputs: seq<real>, model: string): Upstream {
    map name | name in set i | 0 <= i < |inputs| :: Name(i) :: map[model := CostOf(inputs[|name|])]
  }

  function NameList(n: nat): seq<string> {
    seq(n, i requires 0 <= i < n => Name(i))
  }

  lemma NamesInOrder(inputs: seq<real>, model: string)
    ensures IsOrder(NameList(|inputs|), Quoted(inputs, model))
  {
    forall i, j | 0 <= i < j < |inputs|
      ensures Less(NameList(|inputs|)[i], NameList(|inputs|)[j])
    {
      NamesAreOrdered(i, j);
    }
    forall p
      ensures p in NameList(|inputs|) <==> p in Quoted(inputs, model)
    {
      if p in NameList(|inputs|) {
        var i :| 0 <= i < |inputs| && NameList(|inputs|)[i] == p;
        assert Name(i) == p;
      }
      if p in Quoted(inputs, model) {
        var i :| 0 <= i < |inputs| && Name(i) == p;
        assert NameList(|inputs|)[i] == p;
      }
    }
  }

  function CandidateOf(inputs: seq<real>, i: nat): Candidate
    requires i < |inputs|
  {
    Candidate(Name(i), inputs[i], None, None)
  }

  function Candidates(inputs: seq<real>): seq<Candidate> {
    seq(|inputs|, i requires 0 <= i < |inputs| => CandidateOf(inputs, i))
  }

  lemma QuotedOffer(inputs: seq<real>, model: string, i: nat)
    requires i < |inputs| && inputs[i] >= 0.0
    ensures Offer(Quoted(inputs, model), Name(i), model) == Some(CandidateOf(inputs, i))
  {
    assert |Name(i)| == i && Name(i) in Quoted(inputs, model);
  }

  lemma {:induction false} QuotedOffers(inputs: seq<real>, model: string, n: nat)
    requires n <= |inputs| && forall p <- inputs :: p >= 0.0
    ensures Offers(Quoted(inputs, model), NameList(n), model) == Candidates(inputs)[..n]
  {
    if n != 0 {
      QuotedOffers(inputs, model, n - 1);
      assert inputs[n - 1] in inputs;
      QuotedOffer(inputs, model, n - 1);
      NextName(inputs, n - 1, n);
      OffersLast(Quoted(inputs, model), NameList(n - 1), Name(n - 1), NameList(n), model);
    }
  }

  lemma NextName(inputs: seq<real>, n: nat, next: nat)
    requires n < |inputs| && next == n + 1
    ensures NameList(next) == NameList(n) + [Name(n)]
    ensures Candidates(inputs)[..next] == Candidates(inputs)[..n] + [CandidateOf(inputs, n)]
  {
  }

  lemma OffersLast(data: Upstream, init: seq<string>, last: string, names: seq<string>, model: string)
    requires names == init + [last]
    ensures Offers(data, names, model) ==
            Offers(data, init, model) + if Offer(data, last, model).Some? then [Offer(data, last, model).value] else []
  {
    assert names[..|names| - 1] == init && names[|names| - 1] == last;
  }

  /** A non-zero first offer stays unless some other undercuts it by an epsilon. */
  lemma {:induction false} FirstStays(offers: seq<Candidate>)
    requires InOrder(offers) && offers != [] && offers[0].input > 0.0
    requires forall i :: 0 <= i < |offers| && offers[i].input > 0.0 ==> offers[i].input > offers[0].input - EPSILON
    ensures Choose(offers) == Some(offers[0])
    decreases |offers|
  {
    if |offers| > 1 {
      var init, last := offers[..|offers| - 1], offers[|offers| - 1];
      FirstStays(init);
      LessIsAsymmetric(offers[0].provider, last.provider);
    }
  }

  /** The same prices, starting with one of them. */
  function StartingWith(prices: seq<real>, i: nat): seq<real>
    requires i < |prices|
  {
    [prices[i]] + (prices[..i] + prices[i + 1..])
  }

  lemma SamePrices(prices: seq<real>, i: nat)
    requires i < |prices|
    ensures multiset(StartingWith(prices, i)) == multiset(prices)
    ensures forall p <- StartingWith(prices, i) :: p in prices
  {
    assert prices == prices[..i] + ([prices[i]] + prices[i + 1..]);
  }

  lemma CandidatesFirst(inputs: seq<real>)
    requires inputs != [] && 0.0 < inputs[0] && InOrder(Candidates(inputs))
    requires forall i :: 0 <= i < |inputs| ==> inputs[i] == 0.0 || inputs[i] > inputs[0] - EPSILON
    ensures Inputs(Candidates(inputs)) == inputs
    ensures Choose(Candidates(inputs)).Some? && Choose(Candidates(inputs)).value.input == inputs[0]
  {
    assert forall i :: 0 <= i < |inputs| ==> Candidates(inputs)[i].input == inputs[i];
    FirstStays(Candidates(inputs));
  }

  /** Data whose first provider asks the first price, which is then chosen. */
  lemma ChosenFirst(inputs: seq<real>, model: string)
    requires inputs != [] && 0.0 < inputs[0]
    requires forall p <- inputs :: p == 0.0 || (0.0 < p && p > inputs[0] - EPSILON)
    ensures var data, order := Quoted(inputs, model), NameList(|inputs|);
            && IsOrder(order, data) && Inputs(Offers(data, order, model)) == inputs
            && Choose(Offers(data, order, model)).Some? && Choose(Offers(data, order, model)).value.input == inputs[0]
  {
    var data, order := Quoted(inputs, model), NameList(|inputs|);
    NamesInOrder(inputs, model);
    QuotedOffers(inputs, model, |inputs|);
    assert Candidates(inputs)[..|inputs|] == Candidates(inputs);
    OffersAreOffers(data, order, model);
    assert forall i :: 0 <= i < |inputs| ==> inputs[i] in inputs;
    CandidatesFirst(inputs);
  }

  /** The documented policy, the cheapest non-zero price, is met however the providers are named exactly when no
      price lies strictly between the cheapest and an epsilon above it. */
  lemma CheapestExactly(prices: seq<real>, m: real, model: string)
    requires m in prices && 0.0 < m && forall p <- prices :: p == 0.0 || m <= p
    ensures AlwaysChosen(prices, m, model) <==> forall p <- prices :: !(m < p < m + EPSILON)
  {
    if forall p <- prices :: !(m < p < m + EPSILON) {
      forall data: Upstream, order: seq<string> |
        IsOrder(order, data) && multiset(Inputs(Offers(data, order, model))) == multiset(prices)
        ensures Choose(Offers(data, order, model)).Some? && Choose(Offers(data, order, model)).value.input == m
      {
        OffersAreOffers(data, order, model);
        SeparatedIsChosen(Offers(data, order, model), prices, m);
      }
    } else {
      var i :| 0 <= i < |prices| && m < prices[i] < m + EPSILON;
      var inputs := StartingWith(prices, i);
      SamePrices(prices, i);
      ChosenFirst(inputs, model);
      assert !AlwaysChosen(prices, m, model);
    }
  }

  /** Sorted providers on which the policy fails: the first is less than an epsilon dearer than the second, and
      is kept. */
  lemma DearerIsKept(selected: map<string, Candidate>, a: string, b: string, model: string, m: real, p: real)
    requires Less(a, b) && 0.0 < m < p < m + EPSILON
    requires IsSelection(selected, map[a := map[model := CostOf(p)], b := map[model := CostOf(m)]])
    ensures model in selected && selected[model].provider == a && selected[model].input == p > m
  {
    LessIsNotSame(a);
    var data := TwoProviders(a, CostOf(p), b, CostOf(m), model);
    SelectionByOrder(selected, data, [a, b], model);
    TwoOffers(data, a, b, model, Candidate(a, p, None, None), Candidate(b, m, None, None));
  }

  lemma TwoProviders(a: string, x: Cost, b: string, y: Cost, model: string) returns (data: Upstream)
    requires Less(a, b) && a != b
    ensures data == map[a := map[model := x], b := map[model := y]] && IsOrder([a, b], data)
    ensures Offer(data, a, model) == BuildCandidate(a, x) && Offer(data, b, model) == BuildCandidate(b, y)
  {
    data := map[a := map[model := x], b := map[model := y]];
    TwoInOrder(a, b);
  }

  lemma TwoOffers(data: Upstream, a: string, b: string, model: string, first: Candidate, second: Candidate)
    requires Less(a, b) && first.provider == a && second.provider == b
    requires 0.0 < second.input < first.input < second.input + EPSILON
    requires Offer(data, a, model) == Some(first) && Offer(data, b, model) == Some(second)
    ensures Choose(Offers(data, [a, b], model)) == Some(first)
  {
    assert [a, b][..1] == [a] && [a][..0] == [];
    assert Offers(data, [a], model) == [first];
    assert Offers(data, [a, b], model) == [first, second];
    FirstStays([first, second]);
  }

  lemma TwoInOrder(a: string, b: string)
    requires Less(a, b)
    ensures SortedProviders([a, b])
  {
  }

  /** The equality behind the choice is not transitive, so the bound cannot be had from it alone. */
  lemma NearlyEqualIsNotTransitive(a: real)
    ensures NearlyEqual(a, a + EPSILON * 0.75) && NearlyEqual(a + EPSILON * 0.75, a + EPSILON * 1.5)
    ensures !NearlyEqual(a, a + EPSILON * 1.5)
  {
  }

  /** The order matters: out of provider order, a chain of near-equal prices drifts away from the cheapest. */
  lemma UnsortedDrifts(a: Candidate, b: Candidate, c: Candidate)
    requires 0.0 < a.input && b.input == a.input + EPSILON * 0.75 && c.input == a.input + EPSILON * 1.5
    requires Less(c.provider, b.provider) && Less(b.provider, a.provider)
    ensures Choose([a, b, c]) == Some(c) && c.input > a.input + EPSILON
  {
    assert [a, b] == [a] + [b] && [a, b, c] == [a, b] + [c] && [a][..0] == [];
    ChoosePush([a], b);
    ChoosePush([a, b], c);
  }
}
