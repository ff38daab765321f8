/** The search predicate and the stable filter of `searchDialogues` (app.js:208-245). */
module Search {
  import opened Wrappers
  import opened Text
  import opened Labels
  import opened Dataset

  /** `value.toLowerCase() === 'high'` */
  predicate IsHigh(value: string) {
    LowerAll(value) == "high"
  }

  /** `item.personality[trait] === (value.toLowerCase() === 'high')`; a missing trait is `undefined` and fails. */
  predicate TraitAgrees(personality: map<string, bool>, name: string, value: string) {
    name in personality && personality[name] == IsHigh(value)
  }

  /** Every selected trait agrees; with no selected traits the personality is never read. */
  predicate TraitsMatch(personality: Option<map<string, bool>>, traits: map<string, string>) {
    forall t | t in traits :: personality.Some? && TraitAgrees(personality.value, t, traits[t])
  }

  /** With strategies selected, the record needs a `record` array whose labels include all of them. */
  predicate StrategiesMatch(r: Record, strategies: set<string>) {
    strategies == {} || (r.annotations.Some? && strategies <= RecordLabels(r.annotations.value))
  }

  predicate Matches(r: Record, traits: map<string, string>, strategies: set<string>) {
    TraitsMatch(r.personality, traits) && StrategiesMatch(r, strategies)
  }

  /**
   * `item.personality[trait]` on a record without `personality` throws a
   * `TypeError`, which aborts the whole search before any state is written.
   */
  predicate SearchThrows(data: seq<Record>, traits: map<string, string>) {
    traits != map[] && exists i | 0 <= i < |data| :: data[i].personality.None?
  }

  /** `xs.filter(keep)`, as the positions of the kept elements. */
  function Positions<T>(xs: seq<T>, keep: T -> bool): seq<nat>
    decreases |xs|
  {
    if xs == [] then []
    else Positions(xs[..|xs| - 1], keep) + (if keep(xs[|xs| - 1]) then [|xs| - 1] else [])
  }

  /** Positions listed in collection order, each once. */
  predicate Increasing(f: seq<nat>) {
    forall i, j | 0 <= i < j < |f| :: f[i] < f[j]
  }

  /** A filter keeps exactly the elements that pass, in their original order. */
  lemma {:induction false} PositionsExact<T>(xs: seq<T>, keep: T -> bool)
    ensures var f := Positions(xs, keep);
      && Increasing(f)
      && (forall k | 0 <= k < |f| :: f[k] < |xs|)
      && (forall i | 0 <= i < |xs| :: i in f <==> keep(xs[i]))
    decreases |xs|
  {
    if xs != [] {
      var init := xs[..|xs| - 1];
      PositionsExact(init, keep);
      forall i | 0 <= i < |init|
        ensures init[i] == xs[i]
      {
      }
    }
  }

  /** The first kept position is the first element that passes. */
  lemma PositionsFirst<T>(xs: seq<T>, keep: T -> bool)
    requires Positions(xs, keep) != []
    ensures var p := Positions(xs, keep)[0];
      p < |xs| && keep(xs[p]) && forall j | 0 <= j < p :: !keep(xs[j])
  {
    var f := Positions(xs, keep);
    PositionsExact(xs, keep);
    assert f[0] in f;
    forall j | 0 <= j < f[0]
      ensures !keep(xs[j])
    {
      forall k | 0 <= k < |f|
        ensures f[k] != j
      {
        if k > 0 {
          assert f[0] < f[k];
        }
      }
      assert j !in f;
    }
  }

  /** When every element passes, every position is kept. */
  lemma {:induction false} PositionsAll<T>(xs: seq<T>, keep: T -> bool)
    requires forall i | 0 <= i < |xs| :: keep(xs[i])
    ensures var f := Positions(xs, keep); |f| == |xs| && forall k | 0 <= k < |f| :: f[k] == k
    decreases |xs|
  {
    if xs != [] {
      var init := xs[..|xs| - 1];
      assert forall i | 0 <= i < |init| :: init[i] == xs[i];
      PositionsAll(init, keep);
    }
  }

  /** `dialogueData.filter(item => ...)` of `searchDialogues`, as positions in the collection. */
  function Filter(data: seq<Record>, traits: map<string, string>, strategies: set<string>): seq<nat>
  {
    Positions(data, r => Matches(r, traits, strategies))
  }

  /** Search keeps exactly the matching records, as a subsequence in collection order. */
  lemma FilterExact(data: seq<Record>, traits: map<string, string>, strategies: set<string>)
    ensures var f := Filter(data, traits, strategies);
      && Increasing(f)
      && (forall k | 0 <= k < |f| :: f[k] < |data|)
      && (forall i | 0 <= i < |data| :: i in f <==> Matches(data[i], traits, strategies))
  {
    PositionsExact(data, r => Matches(r, traits, strategies));
  }

  /** The first kept position is the first matching record. */
  lemma FilterFirst(data: seq<Record>, traits: map<string, string>, strategies: set<string>)
    requires Filter(data, traits, strategies) != []
    ensures var p := Filter(data, traits, strategies)[0];
      && p < |data| && Matches(data[p], traits, strategies)
      && forall j | 0 <= j < p :: !Matches(data[j], traits, strategies)
  {
    PositionsFirst(data, r => Matches(r, traits, strategies));
  }

  /** With no trait and no strategy selected every record is kept. */
  lemma FilterUnconstrained(data: seq<Record>)
    ensures var f := Filter(data, map[], {}); |f| == |data| && forall k | 0 <= k < |f| :: f[k] == k
  {
    PositionsAll(data, r => Matches(r, map[], {}));
  }

  /** A vocabulary label, selected alone, keeps exactly the records it was extracted from. */
  lemma VocabularyLabelSelects(data: seq<Record>, l: string)
    ensures forall i | 0 <= i < |data| :: StrategiesMatch(data[i], {l}) <==> l in ItemLabels(data[i])
    ensures l in Vocabulary(data) <==> Filter(data, map[], {l}) != []
  {
    VocabularyExact(data, l);
    FilterExact(data, map[], {l});
    var f := Filter(data, map[], {l});
    if f != [] {
      assert f[0] in f;
    }
    if l in Vocabulary(data) {
      var i :| 0 <= i < |data| && l in ItemLabels(data[i]);
      assert Matches(data[i], map[], {l});
    }
  }

  /** The `for...of` loop over `Object.entries(selectedTraits)` with its early `break` (app.js:210-219). */
  method TraitsAgree(personality: map<string, bool>, traits: map<string, string>) returns (ok: bool)
    ensures ok == TraitsMatch(Some(personality), traits)
  {
    ok := true;
    var pending := traits.Keys;
    while pending != {}
      invariant pending <= traits.Keys
      invariant forall t | t in traits && t !in pending :: TraitAgrees(personality, t, traits[t])
      decreases pending
    {
      var t :| t in pending;
      if !TraitAgrees(personality, t, traits[t]) {
        ok := false;
        break;
      }
      pending := pending - {t};
    }
  }
}
