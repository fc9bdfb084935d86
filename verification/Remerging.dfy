/** Merging parameters into a query that already went through the merge (client.py). */
module Remerging {
  import opened Texts
  import opened QueryStrings
  import opened Wrappers
  import opened Pkce
  import opened ProviderConfigs
  import opened Client

  // -----  Grouping undoes flattening  -----

  lemma {:induction false} PutAppends(dict: Dict, key: string, values: seq<string>)
    requires !HasKey(dict, key)
    ensures Put(dict, key, values) == dict + [(key, values)]
  {
    if dict != [] {
      PutAppends(dict[1..], key, values);
      assert [dict[0]] + (dict[1..] + [(key, values)]) == dict + [(key, values)];
    }
  }

  lemma {:induction false} PutReplacesLast(dict: Dict, key: string, old': seq<string>, values: seq<string>)
    requires !HasKey(dict, key)
    ensures Put(dict + [(key, old')], key, values) == dict + [(key, values)]
    ensures Get(dict + [(key, old')], key) == old'
  {
    if dict != [] {
      assert (dict + [(key, old')])[1..] == dict[1..] + [(key, old')];
      PutReplacesLast(dict[1..], key, old', values);
    }
  }

  lemma {:induction false} HasKeyConcat(a: Dict, b: Dict, key: string)
    ensures HasKey(a + b, key) <==> HasKey(a, key) || HasKey(b, key)
  {
    if a == [] {
      assert a + b == b;
    } else {
      assert (a + b)[1..] == a[1..] + b;
      HasKeyConcat(a[1..], b, key);
    }
  }

  lemma GroupStep(dict: Dict, key: string, value: string, rest: Pairs)
    ensures Group(dict, [(key, value)] + rest) == Group(Put(dict, key, Get(dict, key) + [value]), rest)
  {
    assert ([(key, value)] + rest)[1..] == rest;
  }

  /** The values of the last key, collected one by one. */
  lemma {:induction false} GroupLastKey(dict: Dict, key: string, have: seq<string>, values: seq<string>, rest: Pairs)
    requires !HasKey(dict, key)
    ensures Group(dict + [(key, have)], PairsOf(key, values) + rest) == Group(dict + [(key, have + values)], rest)
    decreases |values|
  {
    if values == [] {
      assert PairsOf(key, values) + rest == rest && have + values == have;
    } else {
      var more := have + [values[0]];
      assert PairsOf(key, values) + rest == [(key, values[0])] + (PairsOf(key, values[1..]) + rest);
      PutReplacesLast(dict, key, have, more);
      GroupStep(dict + [(key, have)], key, values[0], PairsOf(key, values[1..]) + rest);
      GroupLastKey(dict, key, more, values[1..], rest);
      assert more + values[1..] == have + values;
    }
  }

  lemma {:induction false} GetWithoutPut(dict: Dict, key: string)
    requires !HasKey(dict, key)
    ensures Get(dict, key) == []
  {
    if dict != [] {
      GetWithoutPut(dict[1..], key);
    }
  }

  /** Flattening and grouping again gives the dictionary back, keys in order. */
  lemma {:induction false} GroupFlatten(done: Dict, dict: Dict)
    requires IsDict(dict) && forall k :: HasKey(dict, k) ==> !HasKey(done, k)
    ensures Group(done, Flatten(dict)) == done + dict
    decreases |dict|
  {
    if dict == [] {
      assert done + dict == done;
    } else {
      var (key, values) := dict[0];
      var rest := Flatten(dict[1..]);
      assert HasKey(dict, key);
      assert Flatten(dict) == [(key, values[0])] + (PairsOf(key, values[1..]) + rest);
      GetWithoutPut(done, key);
      PutAppends(done, key, [] + [values[0]]);
      GroupStep(done, key, values[0], PairsOf(key, values[1..]) + rest);
      GroupLastKey(done, key, [] + [values[0]], values[1..], rest);
      assert [] + [values[0]] + values[1..] == values;
      forall k | HasKey(dict[1..], k) ensures !HasKey(done + [(key, values)], k) {
        HasKeyConcat(done, [(key, values)], k);
      }
      GroupFlatten(done + [(key, values)], dict[1..]);
      assert done + [(key, values)] + dict[1..] == done + dict;
    }
  }

  // -----  What the second merge makes of the first  -----

  predicate AllBlank(values: seq<string>)
  {
    forall v :: v in values ==> v == ""
  }

  function Filled(values: seq<string>): seq<string>
  {
    if values == [] then []
    else if values[0] == "" then Filled(values[1..])
    else [values[0]] + Filled(values[1..])
  }

  lemma {:induction false} FilledIs(values: seq<string>)
    ensures Filled(values) == [] <==> AllBlank(values)
    ensures "" !in values ==> Filled(values) == values
  {
    if values != [] {
      FilledIs(values[1..]);
      assert values[0] in values && values == [values[0]] + values[1..];
      assert forall v :: v in values <==> v == values[0] || v in values[1..];
    }
  }

  /** What is left of a dictionary once its blank values are dropped. */
  function Trimmed(dict: Dict): Dict
  {
    if dict == [] then []
    else if AllBlank(dict[0].1) then Trimmed(dict[1..])
    else [(dict[0].0, Filled(dict[0].1))] + Trimmed(dict[1..])
  }

  /** The entries that have a value that is not blank. */
  function Surviving(dict: Dict): Dict
  {
    if dict == [] then []
    else if AllBlank(dict[0].1) then Surviving(dict[1..])
    else [dict[0]] + Surviving(dict[1..])
  }

  /** The entries that have none. */
  function Blank(dict: Dict): Dict
  {
    if dict == [] then []
    else if AllBlank(dict[0].1) then [dict[0]] + Blank(dict[1..])
    else Blank(dict[1..])
  }

  lemma {:induction false} NonBlankConcat(a: Pairs, b: Pairs)
    ensures NonBlank(a + b) == NonBlank(a) + NonBlank(b)
  {
    if a == [] {
      assert a + b == b;
    } else {
      assert (a + b)[1..] == a[1..] + b;
      NonBlankConcat(a[1..], b);
    }
  }

  lemma {:induction false} NonBlankPairsOf(key: string, values: seq<string>)
    ensures NonBlank(PairsOf(key, values)) == PairsOf(key, Filled(values))
  {
    if values != [] {
      assert PairsOf(key, values)[1..] == PairsOf(key, values[1..]);
      NonBlankPairsOf(key, values[1..]);
      assert values[0] != "" ==> Filled(values)[1..] == Filled(values[1..]);
    }
  }

  lemma {:induction false} NonBlankFlatten(dict: Dict)
    ensures NonBlank(Flatten(dict)) == Flatten(Trimmed(dict))
  {
    if dict != [] {
      NonBlankConcat(PairsOf(dict[0].0, dict[0].1), Flatten(dict[1..]));
      NonBlankPairsOf(dict[0].0, dict[0].1);
      NonBlankFlatten(dict[1..]);
      FilledIs(dict[0].1);
      assert !AllBlank(dict[0].1) ==> Trimmed(dict)[1..] == Trimmed(dict[1..]);
    }
  }

  lemma {:induction false} TrimmedIs(dict: Dict, key: string)
    requires IsDict(dict)
    ensures IsDict(Trimmed(dict))
    ensures HasKey(Trimmed(dict), key) <==> HasKey(dict, key) && !AllBlank(Get(dict, key))
    ensures HasKey(Trimmed(dict), key) ==> Get(Trimmed(dict), key) == Filled(Get(dict, key))
  {
    if dict != [] {
      TrimmedIs(dict[1..], key);
      TrimmedIs(dict[1..], dict[0].0);
      FilledIs(dict[0].1);
      assert !AllBlank(dict[0].1) ==> Trimmed(dict)[1..] == Trimmed(dict[1..]);
    }
  }

  lemma {:induction false} SurvivingIs(dict: Dict, key: string)
    requires IsDict(dict)
    ensures IsDict(Surviving(dict))
    ensures HasKey(Surviving(dict), key) <==> HasKey(dict, key) && !AllBlank(Get(dict, key))
    ensures HasKey(Surviving(dict), key) ==> Get(Surviving(dict), key) == Get(dict, key)
  {
    if dict != [] {
      SurvivingIs(dict[1..], key);
      SurvivingIs(dict[1..], dict[0].0);
      assert !AllBlank(dict[0].1) ==> Surviving(dict)[1..] == Surviving(dict[1..]);
    }
  }

  lemma {:induction false} BlankIs(dict: Dict, key: string)
    requires IsDict(dict)
    ensures HasKey(Blank(dict), key) <==> HasKey(dict, key) && AllBlank(Get(dict, key))
  {
    if dict != [] {
      BlankIs(dict[1..], key);
      assert AllBlank(dict[0].1) ==> Blank(dict)[1..] == Blank(dict[1..]);
    }
  }

  function Keys(dict: Dict): seq<string>
  {
    if dict == [] then [] else [dict[0].0] + Keys(dict[1..])
  }

  lemma {:induction false} TrimmedKeys(dict: Dict)
    ensures Keys(Trimmed(dict)) == Keys(Surviving(dict))
  {
    if dict != [] {
      TrimmedKeys(dict[1..]);
      assert !AllBlank(dict[0].1) ==>
               Trimmed(dict)[1..] == Trimmed(dict[1..]) && Surviving(dict)[1..] == Surviving(dict[1..]);
    }
  }

  lemma {:induction false} PutKeepsKeys(dict: Dict, key: string, values: seq<string>)
    requires HasKey(dict, key)
    ensures Keys(Put(dict, key, values)) == Keys(dict)
  {
    if dict[0].0 != key {
      PutKeepsKeys(dict[1..], key, values);
      assert Put(dict, key, values)[1..] == Put(dict[1..], key, values);
    }
  }

  lemma {:induction false} UpdateKeepsKeys(dict: Dict, other: Dict)
    requires forall k :: HasKey(other, k) ==> HasKey(dict, k)
    ensures Keys(Update(dict, other)) == Keys(dict)
    decreases |other|
  {
    if other != [] {
      var (key, values) := other[0];
      assert HasKey(other, key);
      PutKeepsKeys(dict, key, values);
      forall k | HasKey(other[1..], k) ensures HasKey(Put(dict, key, values), k) {
        assert HasKey(other, k);
        PutGives(dict, key, values, k);
      }
      UpdateKeepsKeys(Put(dict, key, values), other[1..]);
    }
  }

  lemma {:induction false} SameKeysAndValues(a: Dict, b: Dict)
    requires IsDict(a) && IsDict(b) && Keys(a) == Keys(b)
    requires forall k :: HasKey(a, k) ==> Get(a, k) == Get(b, k)
    ensures a == b
  {
    if a != [] {
      assert Keys(b) != [] && a[0].0 == Keys(a)[0] == b[0].0;
      assert HasKey(a, a[0].0);
      assert Keys(a)[1..] == Keys(a[1..]) && Keys(b)[1..] == Keys(b[1..]);
      forall k | HasKey(a[1..], k) ensures Get(a[1..], k) == Get(b[1..], k) {
        assert HasKey(a, k);
      }
      SameKeysAndValues(a[1..], b[1..]);
      assert a[0] == b[0];
    }
  }

  lemma {:induction false} PutInFront(a: Dict, b: Dict, key: string, values: seq<string>)
    requires HasKey(a, key)
    ensures Put(a + b, key, values) == Put(a, key, values) + b
  {
    assert (a + b)[1..] == a[1..] + b;
    if a[0].0 != key {
      PutInFront(a[1..], b, key, values);
    }
  }

  /** The keys of `other` split: the blank ones are new, the others are keys of `a`. */
  ghost predicate Splits(a: Dict, b: Dict, other: Dict)
  {
    forall k :: HasKey(other, k) ==> if AllBlank(Get(other, k)) then !HasKey(a + b, k) else HasKey(a, k)
  }

  lemma SplitsPastBlank(a: Dict, b: Dict, other: Dict)
    requires other != [] && IsDict(other) && Splits(a, b, other) && AllBlank(other[0].1)
    ensures Splits(a, b + [other[0]], other[1..])
  {
    forall k | HasKey(other[1..], k)
      ensures if AllBlank(Get(other[1..], k)) then !HasKey(a + (b + [other[0]]), k) else HasKey(a, k)
    {
      assert HasKey(other, k) && Get(other, k) == Get(other[1..], k);
      assert a + b + [other[0]] == a + (b + [other[0]]);
      HasKeyConcat(a + b, [other[0]], k);
    }
  }

  lemma SplitsPastFilled(a: Dict, b: Dict, other: Dict)
    requires other != [] && IsDict(other) && Splits(a, b, other) && !AllBlank(other[0].1)
    ensures Splits(Put(a, other[0].0, other[0].1), b, other[1..])
  {
    var put := Put(a, other[0].0, other[0].1);
    forall k | HasKey(other[1..], k)
      ensures if AllBlank(Get(other[1..], k)) then !HasKey(put + b, k) else HasKey(put, k)
    {
      assert HasKey(other, k) && Get(other, k) == Get(other[1..], k);
      PutGives(a, other[0].0, other[0].1, k);
      HasKeyConcat(a, b, k);
      HasKeyConcat(put, b, k);
    }
  }

  lemma Reassociate(a: Dict, b: Dict, c: Dict)
    ensures a + b + c == a + (b + c)
  {
  }

  lemma UpdateCons(dict: Dict, head: (string, seq<string>), tail: Dict)
    ensures Update(dict, [head] + tail) == Update(Put(dict, head.0, head.1), tail)
  {
    assert ([head] + tail)[1..] == tail;
  }

  lemma UpdateBlank(a: Dict, b: Dict, other: Dict)
    requires other != [] && IsDict(other) && Splits(a, b, other) && AllBlank(other[0].1)
    ensures Update(a + b, other) == Update(a + (b + [other[0]]), other[1..])
  {
    assert HasKey(other, other[0].0) && Get(other, other[0].0) == other[0].1;
    PutAppends(a + b, other[0].0, other[0].1);
    assert a + b + [other[0]] == a + (b + [other[0]]);
  }

  lemma UpdateFilled(a: Dict, b: Dict, other: Dict)
    requires other != [] && IsDict(other) && Splits(a, b, other) && !AllBlank(other[0].1)
    ensures Update(a + b, other) == Update(Put(a, other[0].0, other[0].1) + b, other[1..])
  {
    assert HasKey(other, other[0].0) && Get(other, other[0].0) == other[0].1;
    PutInFront(a, b, other[0].0, other[0].1);
  }

  /** Keys already set keep their places; blank ones, being new, line up behind. */
  lemma {:induction false} UpdateSplits(a: Dict, b: Dict, other: Dict)
    requires IsDict(other) && Splits(a, b, other)
    ensures Update(a + b, other) == Update(a, Surviving(other)) + (b + Blank(other))
    decreases |other|
  {
    if other == [] {
      assert b + [] == b;
    } else if AllBlank(other[0].1) {
      UpdateBlank(a, b, other);
      SplitsPastBlank(a, b, other);
      UpdateSplits(a, b + [other[0]], other[1..]);
      Reassociate(b, [other[0]], Blank(other[1..]));
    } else {
      UpdateFilled(a, b, other);
      SplitsPastFilled(a, b, other);
      UpdateSplits(Put(a, other[0].0, other[0].1), b, other[1..]);
      var (head, tail) := (other[0], Surviving(other[1..]));
      UpdateCons(a, head, tail);
    }
  }

  /** What the merged dictionary holds for a key: the parameter's values, or none that is blank. */
  lemma MergedValues(query: string, params: Dict, key: string)
    requires IsDict(params)
    ensures HasKey(params, key) ==>
              HasKey(Merged(query, params), key) && Get(Merged(query, params), key) == Get(params, key)
    ensures !HasKey(params, key) ==> "" !in Get(Merged(query, params), key)
  {
    MergedGives(query, params, key);
    if !HasKey(params, key) {
      DecodedHasNoBlanks(Split(query, '&'));
      ValuesHaveNoBlanks(FormDecode(query, false), key);
    }
  }

  /** Setting the surviving parameters again restores the surviving entries whole. */
  lemma UpdateRestores(query: string, params: Dict)
    requires IsDict(params)
    ensures Update(Trimmed(Merged(query, params)), Surviving(params)) == Surviving(Merged(query, params))
  {
    var merged := Merged(query, params);
    MergedGives(query, params, "");
    var trimmed, given := Trimmed(merged), Surviving(params);
    TrimmedKeys(merged);
    TrimmedIs(merged, "");
    SurvivingIs(params, "");
    SurvivingIs(merged, "");
    forall k | HasKey(given, k) ensures HasKey(trimmed, k) {
      SurvivingIs(params, k);
      MergedValues(query, params, k);
      TrimmedIs(merged, k);
    }
    UpdateKeepsKeys(trimmed, given);
    UpdateOverrides(trimmed, given, "");
    forall k | HasKey(Update(trimmed, given), k) ensures Get(Update(trimmed, given), k) == Get(Surviving(merged), k) {
      UpdateKeys(trimmed, given, k);
      UpdateOverrides(trimmed, given, k);
      SurvivingIs(params, k);
      SurvivingIs(merged, k);
      TrimmedIs(merged, k);
      MergedValues(query, params, k);
      FilledIs(Get(merged, k));
    }
    SameKeysAndValues(Update(trimmed, given), Surviving(merged));
  }

  /** Reading the merged query back gives the merged dictionary without its blank values. */
  lemma ReadBack(query: string, params: Dict)
    requires IsDict(params)
    ensures Group([], FormDecode(MergeQuery(query, params), false)) == Trimmed(Merged(query, params))
  {
    var merged := Merged(query, params);
    MergedGives(query, params, "");
    FormRoundTrip(Flatten(merged), false);
    NonBlankFlatten(merged);
    TrimmedIs(merged, "");
    GroupFlatten([], Trimmed(merged));
    assert [] + Trimmed(merged) == Trimmed(merged);
  }

  lemma ParamsSplit(query: string, params: Dict)
    requires IsDict(params)
    ensures Splits(Trimmed(Merged(query, params)), [], params)
  {
    var trimmed := Trimmed(Merged(query, params));
    assert trimmed + [] == trimmed;
    MergedGives(query, params, "");
    forall k | HasKey(params, k)
      ensures if AllBlank(Get(params, k)) then !HasKey(trimmed, k) else HasKey(trimmed, k)
    {
      MergedValues(query, params, k);
      TrimmedIs(Merged(query, params), k);
    }
  }

  /** The second merge, exactly: entries with a value keep their places, and the blank parameters line up behind. */
  lemma SecondMerge(query: string, params: Dict)
    requires IsDict(params)
    ensures Merged(MergeQuery(query, params), params) == Surviving(Merged(query, params)) + Blank(params)
    ensures IsDict(Surviving(Merged(query, params)) + Blank(params))
  {
    var trimmed := Trimmed(Merged(query, params));
    MergedGives(MergeQuery(query, params), params, "");
    ReadBack(query, params);
    ParamsSplit(query, params);
    UpdateSplits(trimmed, [], params);
    UpdateRestores(query, params);
    assert trimmed + [] == trimmed && [] + Blank(params) == Blank(params);
  }

  lemma {:induction false} SurvivingConcat(a: Dict, b: Dict)
    ensures Surviving(a + b) == Surviving(a) + Surviving(b)
  {
    if a == [] {
      assert a + b == b;
    } else {
      assert (a + b)[1..] == a[1..] + b;
      SurvivingConcat(a[1..], b);
    }
  }

  lemma {:induction false} SurvivingOfBlank(dict: Dict)
    ensures Surviving(Blank(dict)) == []
  {
    if dict != [] {
      SurvivingOfBlank(dict[1..]);
      assert AllBlank(dict[0].1) ==> Blank(dict)[1..] == Blank(dict[1..]);
    }
  }

  lemma {:induction false} SurvivingOfFront(front: Dict, back: Dict)
    requires IsDict(front + back)
    requires forall k :: HasKey(front + back, k) && AllBlank(Get(front + back, k)) ==> HasKey(back, k)
    ensures Surviving(front) == front
  {
    if front != [] {
      var all := front + back;
      assert all[1..] == front[1..] + back && all[0] == front[0];
      HasKeyConcat(front[1..], back, front[0].0);
      assert HasKey(all, front[0].0) && Get(all, front[0].0) == front[0].1;
      forall k | HasKey(all[1..], k) && AllBlank(Get(all[1..], k)) ensures HasKey(back, k) {
        assert HasKey(all, k) && Get(all, k) == Get(all[1..], k);
      }
      SurvivingOfFront(front[1..], back);
      assert front == [front[0]] + front[1..];
    }
  }

  /** The merged dictionary ends with the blank parameters, in their own order. */
  predicate BlanksComeLast(query: string, params: Dict)
  {
    var merged, blank := Merged(query, params), Blank(params);
    |blank| <= |merged| && merged[|merged| - |blank|..] == blank
  }

  lemma {:induction false} HasValue(dict: Dict, key: string)
    requires IsDict(dict) && HasKey(dict, key)
    ensures Get(dict, key) != []
  {
    if dict[0].0 != key {
      HasValue(dict[1..], key);
    }
  }

  lemma SurvivorsThenBlanks(query: string, params: Dict)
    requires IsDict(params) && BlanksComeLast(query, params)
    ensures Merged(query, params) == Surviving(Merged(query, params)) + Blank(params)
  {
    var merged, blank := Merged(query, params), Blank(params);
    var front := merged[..|merged| - |blank|];
    assert merged == front + blank;
    MergedGives(query, params, "");
    forall k | HasKey(merged, k) && AllBlank(Get(merged, k)) ensures HasKey(blank, k) {
      MergedValues(query, params, k);
      BlankIs(params, k);
      HasValue(merged, k);
      assert Get(merged, k)[0] in Get(merged, k);
    }
    SurvivingConcat(front, blank);
    SurvivingOfBlank(params);
    SurvivingOfFront(front, blank);
  }

  /** Two dictionaries written as the same text are the same. */
  lemma WritingIsInjective(a: Dict, b: Dict)
    requires IsDict(a) && IsDict(b) && FormEncode(Flatten(a)) == FormEncode(Flatten(b))
    ensures a == b
  {
    FormRoundTrip(Flatten(a), true);
    FormRoundTrip(Flatten(b), true);
    GroupFlatten([], a);
    GroupFlatten([], b);
    assert [] + a == a && [] + b == b;
  }

  // -----  The order of the names  -----

  function NamesOf(pairs: Pairs): seq<string>
  {
    if pairs == [] then [] else [pairs[0].0] + NamesOf(pairs[1..])
  }

  /** Names in the order they first occur, after those already there. */
  function Distinct(taken: seq<string>, names: seq<string>): seq<string>
    decreases |names|
  {
    if names == [] then taken
    else Distinct(if names[0] in taken then taken else taken + [names[0]], names[1..])
  }

  lemma {:induction false} DistinctConcat(taken: seq<string>, a: seq<string>, b: seq<string>)
    ensures Distinct(taken, a + b) == Distinct(Distinct(taken, a), b)
    decreases |a|
  {
    if a == [] {
      assert a + b == b;
    } else {
      assert (a + b)[1..] == a[1..] + b;
      DistinctConcat(if a[0] in taken then taken else taken + [a[0]], a[1..], b);
    }
  }

  lemma {:induction false} KeysAre(dict: Dict, key: string)
    ensures |Keys(dict)| == |dict| && forall i :: 0 <= i < |dict| ==> Keys(dict)[i] == dict[i].0
    ensures key in Keys(dict) <==> HasKey(dict, key)
  {
    if dict != [] {
      KeysAre(dict[1..], key);
      assert Keys(dict)[1..] == Keys(dict[1..]);
    }
  }

  lemma PutKeys(dict: Dict, key: string, values: seq<string>)
    ensures Keys(Put(dict, key, values)) == if key in Keys(dict) then Keys(dict) else Keys(dict) + [key]
  {
    KeysAre(dict, key);
    if HasKey(dict, key) {
      PutKeepsKeys(dict, key, values);
    } else {
      PutAppends(dict, key, values);
      KeysAre(dict + [(key, values)], key);
      assert Keys(dict + [(key, values)]) == Keys(dict) + [key];
    }
  }

  lemma {:induction false} GroupNames(dict: Dict, pairs: Pairs)
    ensures Keys(Group(dict, pairs)) == Distinct(Keys(dict), NamesOf(pairs))
    decreases |pairs|
  {
    if pairs != [] {
      var values := Get(dict, pairs[0].0) + [pairs[0].1];
      PutKeys(dict, pairs[0].0, values);
      GroupNames(Put(dict, pairs[0].0, values), pairs[1..]);
      assert NamesOf(pairs)[1..] == NamesOf(pairs[1..]);
    }
  }

  lemma {:induction false} UpdateNames(dict: Dict, other: Dict)
    ensures Keys(Update(dict, other)) == Distinct(Keys(dict), Keys(other))
    decreases |other|
  {
    if other != [] {
      PutKeys(dict, other[0].0, other[0].1);
      UpdateNames(Put(dict, other[0].0, other[0].1), other[1..]);
      assert Keys(other)[1..] == Keys(other[1..]);
    }
  }

  /** The names in the merged query, in order: those with a value in the URL's own, then the parameters'. */
  function MergedNames(query: string, params: Dict): seq<string>
  {
    Distinct([], NamesOf(FormDecode(query, false)) + Keys(params))
  }

  /** Those names end with the blank parameters, in their own order. */
  predicate BlankNamesComeLast(query: string, params: Dict)
  {
    var names, blank := MergedNames(query, params), Keys(Blank(params));
    |blank| <= |names| && names[|names| - |blank|..] == blank
  }

  lemma MergedKeys(query: string, params: Dict)
    ensures Keys(Merged(query, params)) == MergedNames(query, params)
  {
    GroupNames([], FormDecode(query, false));
    UpdateNames(Group([], FormDecode(query, false)), params);
    DistinctConcat([], NamesOf(FormDecode(query, false)), Keys(params));
  }

  lemma {:induction false} EntryAt(dict: Dict, i: nat)
    requires IsDict(dict) && i < |dict|
    ensures HasKey(dict, dict[i].0) && Get(dict, dict[i].0) == dict[i].1
  {
    if i > 0 {
      EntryAt(dict[1..], i - 1);
    }
  }

  lemma {:induction false} BlankIsPart(dict: Dict, i: nat)
    requires IsDict(dict) && i < |Blank(dict)|
    ensures HasKey(dict, Blank(dict)[i].0) && Get(dict, Blank(dict)[i].0) == Blank(dict)[i].1
  {
    if !AllBlank(dict[0].1) {
      BlankIsPart(dict[1..], i);
    } else if i > 0 {
      BlankIsPart(dict[1..], i - 1);
    }
  }

  lemma SameEntry(query: string, params: Dict, i: nat, j: nat)
    requires IsDict(params) && i < |Blank(params)| && j < |Merged(query, params)|
    requires Merged(query, params)[j].0 == Blank(params)[i].0
    ensures Merged(query, params)[j] == Blank(params)[i]
  {
    var key := Blank(params)[i].0;
    BlankIsPart(params, i);
    MergedGives(query, params, key);
    EntryAt(Merged(query, params), j);
  }

  lemma KeysOfSuffix(dict: Dict, n: nat)
    requires n <= |dict|
    ensures |Keys(dict)| == |dict| && Keys(dict)[n..] == Keys(dict[n..])
  {
    KeysAre(dict, "");
    KeysAre(dict[n..], "");
  }

  lemma SameNamesSameTail(query: string, params: Dict, n: nat)
    requires IsDict(params) && n + |Blank(params)| == |Merged(query, params)|
    requires Keys(Merged(query, params)[n..]) == Keys(Blank(params))
    ensures Merged(query, params)[n..] == Blank(params)
  {
    var tail, blank := Merged(query, params)[n..], Blank(params);
    KeysAre(tail, "");
    KeysAre(blank, "");
    MergedGives(query, params, "");
    forall i | 0 <= i < |blank| ensures tail[i] == blank[i] {
      assert Keys(tail)[i] == Keys(blank)[i];
      SameEntry(query, params, i, n + i);
    }
  }

  /** The names alone decide whether the blank entries come last. */
  lemma NamesDecide(query: string, params: Dict)
    requires IsDict(params)
    ensures BlanksComeLast(query, params) <==> BlankNamesComeLast(query, params)
  {
    var merged, blank := Merged(query, params), Blank(params);
    MergedKeys(query, params);
    KeysOfSuffix(merged, 0);
    KeysOfSuffix(blank, 0);
    if |blank| <= |merged| {
      var n := |merged| - |blank|;
      KeysOfSuffix(merged, n);
      if Keys(merged[n..]) == Keys(blank) {
        SameNamesSameTail(query, params, n);
      }
    }
  }

  /**
   * Exactly when the second merge reproduces the query to the letter: the names of the query and
   * of the parameters, in order of first occurrence, end with the blank parameters' names.
   */
  lemma MergeIsIdempotentExactly(query: string, params: Dict)
    requires IsDict(params)
    ensures MergeQuery(MergeQuery(query, params), params) == MergeQuery(query, params)
            <==> BlankNamesComeLast(query, params)
  {
    var merged := Merged(query, params);
    MergedGives(query, params, "");
    SecondMerge(query, params);
    NamesDecide(query, params);
    if MergeQuery(MergeQuery(query, params), params) == MergeQuery(query, params) {
      WritingIsInjective(merged, Merged(MergeQuery(query, params), params));
    }
    if BlanksComeLast(query, params) {
      SurvivorsThenBlanks(query, params);
    }
  }

  lemma BlankHasBlank(dict: Dict)
    requires IsDict(dict) && Blank(dict) != []
    ensures exists k :: "" in Get(dict, k)
  {
    var k := Blank(dict)[0].0;
    BlankIs(dict, k);
    HasValue(dict, k);
    assert Get(dict, k)[0] in Get(dict, k);
  }

  /** With no blank parameter it always does. */
  lemma MergeIsIdempotent(query: string, params: Dict)
    requires IsDict(params) && forall k :: "" !in Get(params, k)
    ensures MergeQuery(MergeQuery(query, params), params) == MergeQuery(query, params)
  {
    if Blank(params) != [] {
      BlankHasBlank(params);
    }
    MergeIsIdempotentExactly(query, params);
  }

  /** A server reads the same parameters whether the merge was run once or twice. */
  lemma MergeTwiceReads(query: string, params: Dict, key: string)
    requires IsDict(params)
    ensures Values(FormDecode(MergeQuery(MergeQuery(query, params), params), true), key)
            == Values(FormDecode(MergeQuery(query, params), true), key)
  {
    var once := MergeQuery(query, params);
    MergedQueryReads(query, params, key);
    MergedQueryReads(once, params, key);
    if !HasKey(params, key) {
      MergedGives(query, params, key);
      DecodedHasNoBlanks(Split(query, '&'));
      ValuesHaveNoBlanks(FormDecode(query, false), key);
      var merged := Merged(query, params);
      ValuesFlatten(merged, key);
      FormRoundTrip(Flatten(merged), false);
      ValuesNonBlank(Flatten(merged), key);
    }
  }

  /** A configuration with a blank extra parameter, and a resource, which is set after it. */
  const BLANK_EXTRA := ProviderConfig(
    "client", None, "https://as.example/authorize", "https://as.example/token", None, None, [], ' ', false, NONE,
    [("prompt", "")], map[], None, false, Some("https://mcp.example/"))

  lemma SuffixEnds(names: seq<string>, tail: seq<string>)
    requires 0 < |tail| <= |names| && names[|names| - |tail|..] == tail
    ensures names[|names| - 1] == tail[|tail| - 1]
  {
    assert names[|names| - 1] == names[|names| - |tail|..][|tail| - 1];
  }

  lemma NoResource(redirectUri: string, state: string, sha256: Digest)
    requires IsConfig(BLANK_EXTRA.(resource := None))
    ensures !HasKey(AuthorizationParams(BLANK_EXTRA.(resource := None), redirectUri, state, None, sha256), "resource")
  {
    var config := BLANK_EXTRA.(resource := None);
    ParamsGive(config, redirectUri, state, None, sha256, "resource");
    SingletonsHold(config.extraParams, "resource");
    ProtocolGives(config, redirectUri, state, None, sha256);
    assert |"prompt"| == 6 && |"resource"| == 8;
    assert forall pair :: pair in config.extraParams ==> pair.0 == "prompt";
  }

  lemma {:induction false} InDistinct(taken: seq<string>, names: seq<string>, name: string)
    ensures name in Distinct(taken, names) <==> name in taken || name in names
    decreases |names|
  {
    if names != [] {
      InDistinct(if names[0] in taken then taken else taken + [names[0]], names[1..], name);
      assert name in names <==> name == names[0] || name in names[1..];
    }
  }

  lemma ResourceIsLast(redirectUri: string, state: string, sha256: Digest)
    requires IsConfig(BLANK_EXTRA.(resource := None))
    ensures var names := MergedNames("", AuthorizationParams(BLANK_EXTRA, redirectUri, state, None, sha256));
            names != [] && names[|names| - 1] == "resource"
  {
    var key, values := "resource", ["https://mcp.example/"];
    var config := BLANK_EXTRA.(resource := None);
    var before := AuthorizationParams(config, redirectUri, state, None, sha256);
    var params := AuthorizationParams(BLANK_EXTRA, redirectUri, state, None, sha256);
    assert params == Put(before, key, values);
    NoResource(redirectUri, state, sha256);
    KeysAre(before, key);
    PutKeys(before, key, values);
    FormRoundTrip([], false);
    assert MergedNames("", params) == Distinct([], Keys(before) + [key]) by {
      assert NamesOf([]) + Keys(params) == Keys(before) + [key];
    }
    DistinctConcat([], Keys(before), [key]);
    InDistinct([], Keys(before), key);
    assert [key][1..] == [];
  }

  lemma BlankExtraParams(redirectUri: string, state: string, sha256: Digest)
    ensures IsConfig(BLANK_EXTRA)
    ensures var params := AuthorizationParams(BLANK_EXTRA, redirectUri, state, None, sha256);
            && IsDict(params)
            && HasKey(params, "prompt") && Get(params, "prompt") == [""]
            && HasKey(params, "resource") && Get(params, "resource") == ["https://mcp.example/"]
            && MergedNames("", params) != [] && MergedNames("", params)[|MergedNames("", params)| - 1] == "resource"
  {
    var extra := BLANK_EXTRA.extraParams;
    assert |"prompt"| == 6 && |"resource"| == 8;
    assert Singletons(extra) == [("prompt", [""])] && Singletons(extra)[1..] == [];
    assert IsDict(Singletons(extra));
    ParamsGive(BLANK_EXTRA, redirectUri, state, None, sha256, "prompt");
    ParamsGive(BLANK_EXTRA, redirectUri, state, None, sha256, "resource");
    ResourceIsLast(redirectUri, state, sha256);
  }

  /** With it the second merge is not the identity: the blank parameter comes back behind the resource. */
  lemma MergeMovesBlanks(redirectUri: string, state: string, sha256: Digest)
    ensures CheckSecret(BLANK_EXTRA).None? && IsConfig(BLANK_EXTRA)
    ensures var once := AuthorizationQuery(BLANK_EXTRA, "", redirectUri, state, None, sha256);
            AuthorizationQuery(BLANK_EXTRA, once, redirectUri, state, None, sha256) != once
  {
    var params := AuthorizationParams(BLANK_EXTRA, redirectUri, state, None, sha256);
    BlankExtraParams(redirectUri, state, sha256);
    var blank := Blank(params);
    BlankIs(params, "prompt");
    KeysAre(blank, "resource");
    assert "" in Get(params, "prompt") by {
      assert Get(params, "prompt")[0] == "";
    }
    assert !AllBlank(Get(params, "resource")) by {
      assert Get(params, "resource")[0] in Get(params, "resource");
    }
    BlankIs(params, "resource");
    assert blank != [] && Keys(blank)[|blank| - 1] != "resource";
    if BlankNamesComeLast("", params) {
      SuffixEnds(MergedNames("", params), Keys(blank));
    }
    MergeIsIdempotentExactly("", params);
  }
}
