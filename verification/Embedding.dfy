/** Accepting an embedding response: the items must answer the inputs one to one. */
module Embedding {
  import opened Basics
  import opened Text

  /** A JSON value where a number is expected. `Integer` is a literal that Go's `Atoi` reads. */
  datatype Field = Absent | Integer(n: int) | OtherNumber(finite: bool) | NotANumber

  function AsCount(f: Field): Option<nat> {
    if f.Integer? && f.n >= 0 then Some(f.n) else None
  }

  predicate FiniteNumber(f: Field) {
    f.Integer? || (f.OtherNumber? && f.finite)
  }

  datatype Item = Item(index: Field, object_: string, embedding: Option<seq<Field>>)

  datatype Response = Response(
    wellFormed: bool,
    object_: string,
    hasError: bool,
    data: Option<seq<Item>>,
    promptTokens: Field,
    totalTokens: Field,
    completionTokens: Field)

  // ----- What an acceptable response is -----

  predicate GoodVector(item: Item, dimensions: int) {
    && item.object_ == "embedding" && item.embedding.Some? && |item.embedding.value| == dimensions
    && forall number <- item.embedding.value :: FiniteNumber(number)
  }

  /** Items carry distinct indices below their number, and vectors of one positive dimension. */
  predicate GoodItems(items: seq<Item>, dimensions: int) {
    && dimensions > 0
    && (forall i :: 0 <= i < |items| ==> AsCount(items[i].index).Some? && items[i].index.n < |items|)
    && (forall i, j :: 0 <= i < j < |items| ==> items[i].index.n != items[j].index.n)
    && (forall i :: 0 <= i < |items| ==> GoodVector(items[i], dimensions))
  }

  predicate GoodUsage(r: Response) {
    && r.promptTokens.Integer? && r.promptTokens.n > 0 && r.totalTokens == r.promptTokens
    && (r.completionTokens.Absent? || r.completionTokens == Integer(0))
  }

  predicate GoodResponse(r: Response, expectedCount: int, expectedDimensions: int) {
    && r.wellFormed && r.object_ == "list" && !r.hasError && r.data.Some? && r.data.value != []
    && (expectedCount > 0 ==> |r.data.value| == expectedCount)
    && GoodItems(r.data.value, Dimension(r.data.value, expectedDimensions))
    && GoodUsage(r)
  }

  /** The dimension asked for, or that of the first vector. */
  function Dimension(items: seq<Item>, expected: int): int
    requires items != []
  {
    if expected != 0 then expected else if items[0].embedding.Some? then |items[0].embedding.value| else 0
  }

  // ----- The program -----

  method Validate(r: Response, expectedCount: int, expectedDimensions: int) returns (tokens: Option<int>)
    ensures tokens.Some? <==> GoodResponse(r, expectedCount, expectedDimensions)
    ensures tokens.Some? ==> r.promptTokens == Integer(tokens.value)
  {
    if !r.wellFormed || r.object_ != "list" || r.hasError || r.data.None? {
      return None;
    }
    var items := r.data.value;
    if |items| == 0 || (expectedCount > 0 && |items| != expectedCount) {
      return None;
    }
    var ok := ValidateItems(items, expectedDimensions);
    if !ok {
      return None;
    }
    var input, total := AsCount(r.promptTokens), AsCount(r.totalTokens);
    if input.None? || total.None? || input.value <= 0 || total.value != input.value {
      return None;
    }
    if !r.completionTokens.Absent? {
      var n := AsCount(r.completionTokens);
      if n.None? || n.value != 0 {
        return None;
      }
    }
    return Some(input.value);
  }

  /** The tests on one item; `next` is the dimension expected from here on. */
  method CheckItem(item: Item, count: nat, seen: set<int>, dimensions: int) returns (ok: bool, next: int)
    ensures next == if dimensions == 0 && item.embedding.Some? then |item.embedding.value| else dimensions
    ensures ok <==> Passes(item, count, seen, next)
  {
    ok, next := false, if dimensions == 0 && item.embedding.Some? then |item.embedding.value| else dimensions;
    var index := AsCount(item.index);
    if index.None? || index.value >= count || index.value in seen || item.object_ != "embedding" ||
       item.embedding.None? {
      return;
    }
    var vector := item.embedding.value;
    if |vector| == 0 || |vector| != next {
      return;
    }
    ok := AllFinite(vector);
  }

  /** The first `n` items pass, and `seen` holds their indices. */
  ghost predicate Passed(items: seq<Item>, n: nat, seen: set<int>, dimensions: int)
    requires n <= |items|
  {
    && (forall i :: 0 <= i < n ==>
         AsCount(items[i].index).Some? && items[i].index.n < |items| && GoodVector(items[i], dimensions))
    && (forall i, j :: 0 <= i < j < n ==> items[i].index.n != items[j].index.n)
    && (forall m :: m in seen <==> exists i :: 0 <= i < n && items[i].index == Integer(m))
  }

  predicate Passes(item: Item, count: nat, seen: set<int>, dimensions: int) {
    && AsCount(item.index).Some? && item.index.n < count && item.index.n !in seen
    && GoodVector(item, dimensions) && 0 < dimensions
  }

  lemma PassedPush(items: seq<Item>, n: nat, seen: set<int>, dimensions: int)
    requires n < |items| && Passed(items, n, seen, dimensions) && Passes(items[n], |items|, seen, dimensions)
    ensures Passed(items, n + 1, seen + {items[n].index.n}, dimensions)
  {
    var m := items[n].index.n;
    forall k | k in seen + {m}
      ensures exists i :: 0 <= i < n + 1 && items[i].index == Integer(k)
    {
      if k in seen {
        var i :| 0 <= i < n && items[i].index == Integer(k);
      } else {
        assert items[n].index == Integer(k);
      }
    }
  }

  lemma NotPassed(items: seq<Item>, n: nat, seen: set<int>, dimensions: int)
    requires n < |items| && Passed(items, n, seen, dimensions) && !Passes(items[n], |items|, seen, dimensions)
    ensures !GoodItems(items, dimensions)
  {
    if AsCount(items[n].index).Some? && items[n].index.n in seen {
      var i :| 0 <= i < n && items[i].index == Integer(items[n].index.n);
      Repeated(items, i, n, dimensions);
    }
  }

  lemma Repeated(items: seq<Item>, i: nat, j: nat, dimensions: int)
    requires i < j < |items| && items[i].index.Integer? && items[j].index == items[i].index
    ensures !GoodItems(items, dimensions)
  {
  }

  /** The loop over the items. */
  method ValidateItems(items: seq<Item>, expectedDimensions: int) returns (ok: bool)
    requires items != []
    ensures ok <==> GoodItems(items, Dimension(items, expectedDimensions))
  {
    var seen: set<int> := {};
    var dimensions := expectedDimensions;
    ghost var wanted := Dimension(items, expectedDimensions);
    for i := 0 to |items|
      invariant Passed(items, i, seen, wanted)
      invariant if i == 0 then dimensions == expectedDimensions else dimensions == wanted && wanted > 0
    {
      ok, dimensions := CheckItem(items[i], |items|, seen, dimensions);
      if !ok {
        NotPassed(items, i, seen, wanted);
        return;
      }
      PassedPush(items, i, seen, wanted);
      seen := seen + {items[i].index.n};
    }
    return true;
  }

  method AllFinite(vector: seq<Field>) returns (finite: bool)
    ensures finite <==> forall number <- vector :: FiniteNumber(number)
  {
    for i := 0 to |vector|
      invariant forall j :: 0 <= j < i ==> FiniteNumber(vector[j])
    {
      if !FiniteNumber(vector[i]) {
        return false;
      }
    }
    return true;
  }

  // ----- Counting the inputs of a request -----

  datatype InputItem = TextItem(text: string) | NumberItem(number: Field) | ListItem(items: seq<Field>) | OtherItem

  datatype Input = One(text: string) | Many(items: seq<InputItem>) | OtherInput

  predicate NonBlank(s: string) {
    Trim(s) != ""
  }

  /** A non-empty list of non-negative integers. */
  predicate Tokens(numbers: seq<Field>) {
    numbers != [] && forall number <- numbers :: AsCount(number).Some?
  }

  predicate TextBatch(items: seq<InputItem>) {
    forall i :: 0 <= i < |items| ==> items[i].TextItem? && NonBlank(items[i].text)
  }

  predicate TokenBatch(items: seq<InputItem>) {
    forall i :: 0 <= i < |items| ==> items[i].ListItem? && Tokens(items[i].items)
  }

  predicate TokenSequence(items: seq<InputItem>) {
    forall i :: 0 <= i < |items| ==> items[i].NumberItem? && AsCount(items[i].number).Some?
  }

  method InputCount(input: Input) returns (count: Option<nat>)
    ensures input.One? ==> count == if NonBlank(input.text) then Some(1) else None
    ensures input.OtherInput? ==> count.None?
    ensures input.Many? ==>
              (count.Some? <==> (input.items != [] &&
                (TokenSequence(input.items) || TextBatch(input.items) || TokenBatch(input.items))))
    ensures input.Many? && count.Some? ==> count.value == if TokenSequence(input.items) then 1 else |input.items|
    ensures count.Some? ==> count.value > 0
  {
    if input.One? {
      return if NonBlank(input.text) then Some(1) else None;
    }
    if !input.Many? || |input.items| == 0 {
      return None;
    }
    var items := input.items;
    if items[0].NumberItem? {
      for i := 0 to |items|
        invariant TokenSequence(items[..i])
      {
        assert items[..i + 1] == items[..i] + [items[i]];
        if !items[i].NumberItem? || AsCount(items[i].number).None? {
          return None;
        }
      }
      assert items[..|items|] == items;
      return Some(1);
    }
    for i := 0 to |items|
      invariant items[0].TextItem? ==> TextBatch(items[..i])
      invariant !items[0].TextItem? ==> TokenBatch(items[..i])
    {
      assert items[..i + 1] == items[..i] + [items[i]];
      if items[0].TextItem? {
        if !items[i].TextItem? || !NonBlank(items[i].text) {
          return None;
        }
      } else if !items[i].ListItem? || !Tokens(items[i].items) {
        return None;
      }
    }
    assert items[..|items|] == items;
    return Some(|items|);
  }

  // ----- One vector per input -----

  function Indices(items: seq<Item>, n: nat): set<int>
    requires n <= |items| && forall i :: 0 <= i < |items| ==> items[i].index.Integer?
  {
    set i | 0 <= i < n :: items[i].index.n
  }

  lemma {:induction false} DistinctIndices(items: seq<Item>, n: nat)
    requires n <= |items| && forall i :: 0 <= i < |items| ==> items[i].index.Integer?
    requires forall i, j :: 0 <= i < j < |items| ==> items[i].index.n != items[j].index.n
    ensures |Indices(items, n)| == n
  {
    if n != 0 {
      DistinctIndices(items, n - 1);
      assert Indices(items, n) == Indices(items, n - 1) + {items[n - 1].index.n};
    }
  }

  function Below(n: nat): (s: set<int>) {
    if n == 0 then {} else Below(n - 1) + {n - 1}
  }

  lemma {:induction false} BelowSize(n: nat)
    ensures |Below(n)| == n && forall k :: k in Below(n) <==> 0 <= k < n
  {
    if n != 0 {
      BelowSize(n - 1);
    }
  }

  lemma SameSizeSubset(a: set<int>, b: set<int>)
    requires a <= b && |a| == |b|
    ensures a == b
  {
    assert b == a + (b - a);
  }

  /** In an accepted response every input has exactly one vector, and all vectors have the same positive
      dimension. */
  lemma OneVectorPerInput(r: Response, expectedCount: int, expectedDimensions: int, k: int)
    requires GoodResponse(r, expectedCount, expectedDimensions) && 0 <= k < |r.data.value|
    ensures expectedCount > 0 ==> |r.data.value| == expectedCount
    ensures exists i :: 0 <= i < |r.data.value| && r.data.value[i].index == Integer(k) &&
              (forall j :: 0 <= j < |r.data.value| && r.data.value[j].index == Integer(k) ==> j == i) &&
              |r.data.value[i].embedding.value| == Dimension(r.data.value, expectedDimensions) > 0
  {
    var items := r.data.value;
    DistinctIndices(items, |items|);
    BelowSize(|items|);
    SameSizeSubset(Indices(items, |items|), Below(|items|));
    assert k in Below(|items|);
    var i :| 0 <= i < |items| && items[i].index.n == k;
    assert GoodVector(items[i], Dimension(items, expectedDimensions));
  }

  // ----- Acceptance, written out -----

  /** The vector of an item: a list of this length, of numbers that are not infinite. */
  predicate IsVector(item: Item, length: int) {
    && item.object_ == "embedding" && item.embedding.Some? && |item.embedding.value| == length
    && forall i :: 0 <= i < length ==>
         item.embedding.value[i].Integer? || item.embedding.value[i] == OtherNumber(true)
  }

  /** The items answer the inputs with vectors of this length. */
  ghost predicate Answers(items: seq<Item>, length: int) {
    && 0 < length
    && (forall i :: 0 <= i < |items| ==>
         items[i].index.Integer? && 0 <= items[i].index.n < |items| && IsVector(items[i], length))
    && (forall i, j :: 0 <= i < j < |items| ==> items[i].index != items[j].index)
  }

  lemma VectorExactly(item: Item, length: int)
    ensures GoodVector(item, length) <==> IsVector(item, length)
  {
    if item.embedding.Some? {
      var v := item.embedding.value;
      if IsVector(item, length) {
        forall number <- v
          ensures FiniteNumber(number)
        {
          var i :| 0 <= i < |v| && v[i] == number;
        }
      }
      assert forall i :: 0 <= i < |v| ==> v[i] in v;
    }
  }

  /** A response is accepted exactly if it is a list without an error, has as many items as expected where a number
      is expected, the items answer the inputs with vectors of the expected length where one is expected, and the
      usage is a positive number of prompt tokens, as many in total, and no completion tokens. */
  lemma AcceptedExactly(r: Response, expectedCount: int, expectedDimensions: int)
    ensures GoodResponse(r, expectedCount, expectedDimensions) <==>
            && r.wellFormed && r.object_ == "list" && !r.hasError && r.data.Some? && r.data.value != []
            && (expectedCount <= 0 || |r.data.value| == expectedCount)
            && (exists length :: Answers(r.data.value, length) &&
                                 (expectedDimensions == 0 || length == expectedDimensions))
            && (exists n :: 0 < n && r.promptTokens == Integer(n) && r.totalTokens == Integer(n))
            && r.completionTokens in {Absent, Integer(0)}
  {
    if r.data.Some? && r.data.value != [] {
      var items, d := r.data.value, Dimension(r.data.value, expectedDimensions);
      ItemsExactly(items, d);
      if GoodItems(items, d) {
        assert Answers(items, d);
      }
      if length :| Answers(items, length) && (expectedDimensions == 0 || length == expectedDimensions) {
        assert IsVector(items[0], length);
        assert length == d;
      }
    }
    UsageExactly(r);
  }

  lemma ItemsExactly(items: seq<Item>, length: int)
    ensures GoodItems(items, length) <==> Answers(items, length)
  {
    forall i | 0 <= i < |items|
      ensures GoodVector(items[i], length) <==> IsVector(items[i], length)
    {
      VectorExactly(items[i], length);
    }
  }

  lemma UsageExactly(r: Response)
    ensures GoodUsage(r) <==>
            && (exists n :: 0 < n && r.promptTokens == Integer(n) && r.totalTokens == Integer(n))
            && r.completionTokens in {Absent, Integer(0)}
  {
    if GoodUsage(r) {
      assert r.promptTokens == Integer(r.promptTokens.n);
    }
  }

  /** What counts as one input: a text that is not all space, or a list of at least one token number. */
  lemma InputsExactly(s: string, numbers: seq<Field>, items: seq<InputItem>)
    ensures NonBlank(s) <==> exists k :: 0 <= k < |s| && !IsSpace(s[k])
    ensures Tokens(numbers) <==>
            numbers != [] && forall i :: 0 <= i < |numbers| ==> numbers[i].Integer? && 0 <= numbers[i].n
    ensures TokenSequence(items) <==>
            forall i :: 0 <= i < |items| ==>
              items[i].NumberItem? && items[i].number.Integer? && 0 <= items[i].number.n
  {
    BlankExactly(s);
    assert forall i :: 0 <= i < |numbers| ==> numbers[i] in numbers;
    if forall i :: 0 <= i < |numbers| ==> numbers[i].Integer? && 0 <= numbers[i].n {
      forall number <- numbers
        ensures AsCount(number).Some?
      {
        var i :| 0 <= i < |numbers| && numbers[i] == number;
      }
    }
  }
}
