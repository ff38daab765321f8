/**
 * The page's navigation and filter state and its event handlers, as functions
 * from the state before a handler runs to the state after it. The `Explorer`
 * class performs the same updates in place; these functions are its
 * specification, and the lemmas below are what the handlers promise.
 */
module Navigation {
  import opened Wrappers
  import opened Text
  import opened Labels
  import opened Dataset
  import opened Search

  /** The value of the task selector: which collection is loaded. */
  datatype Task = Image | Story

  /** The trait buttons on the page, as their (`data-trait`, `data-value`) pairs. */
  type Buttons = set<(string, string)>

  /**
   * The module-level variables of app.js:28-36 and the page controls the
   * handlers write. `filtered` holds positions in `data`: the script keeps
   * references to the records themselves and recovers positions with
   * `dialogueData.indexOf`, which returns the same position because the
   * records are distinct objects.
   */
  datatype Session = Session(
    task: Task,                           // currentTask
    data: seq<Record>,                    // dialogueData
    current: int,                         // currentDialogIndex
    filtered: seq<nat>,                   // filteredDialogues
    filteredIndex: int,                   // currentFilteredIndex
    traits: map<string, string>,          // selectedTraits
    highlighted: set<(string, string)>,   // trait buttons carrying the `selected` class
    strategies: set<string>,              // selectedStrategies
    vocabulary: set<string>,              // labels offered as strategy checkboxes
    listed: set<string>,                  // labels listed beside the shown dialogue
    prevDisabled: bool,                   // prevDialogBtn.disabled
    nextDisabled: bool,                   // nextDialogBtn.disabled
    shown: int,                           // dialogNumber.value
    total: int                            // totalDialogs.textContent
  )

  /** Filtered mode: `currentFilteredIndex >= 0 && filteredDialogues.length > 0`. */
  predicate Filtering(s: Session) {
    s.filteredIndex >= 0 && |s.filtered| > 0
  }

  /** The index navigation works on: relative in filtered mode, absolute otherwise. */
  function ActiveIndex(s: Session): int {
    if Filtering(s) then s.filteredIndex else s.current
  }

  /** The length of the space navigation works on. */
  function ActiveLength(s: Session): nat {
    if Filtering(s) then |s.filtered| else |s.data|
  }

  function Level(high: bool): string {
    if high then "high" else "low"
  }

  /** The traits `showDialogue` selects for a personality: those whose button exists (app.js:308-315). */
  function AutoTraits(p: map<string, bool>, buttons: Buttons): map<string, string> {
    map t | t in p && (t, Level(p[t])) in buttons :: Level(p[t])
  }

  /** The buttons that carry the `selected` class when `traits` are selected. */
  function Highlight(traits: map<string, string>): set<(string, string)> {
    set t | t in traits :: (t, traits[t])
  }

  /** Everything the handlers keep consistent, except where the current dialogue is. */
  predicate WellFormed(s: Session, buttons: Buttons) {
    && Increasing(s.filtered)
    && (forall k | 0 <= k < |s.filtered| :: s.filtered[k] < |s.data|)
    && (if s.filtered == [] then s.filteredIndex == -1 else 0 <= s.filteredIndex < |s.filtered|)
    && (forall t | t in s.traits :: (t, s.traits[t]) in buttons)
    && s.highlighted == Highlight(s.traits)
  }

  /**
   * The state invariant: the filtered list is an ordered list of positions,
   * the filtered index is in range exactly when the list is non-empty, in
   * filtered mode the absolute index is the position of the current filtered
   * entry, and the highlighted buttons are exactly the selected traits.
   */
  predicate Valid(s: Session, buttons: Buttons) {
    && WellFormed(s, buttons)
    && s.current >= -1
    && (Filtering(s) ==> s.current == s.filtered[s.filteredIndex])
  }

  /** The labels `showDialogue` lists for a record (app.js:362-381, without the sorting). */
  function Display(s: Session, buttons: Buttons, r: Record): Session {
    var withTraits :=
      match r.personality
      case Some(p) => s.(traits := AutoTraits(p, buttons), highlighted := Highlight(AutoTraits(p, buttons)))
      case None => s;
    withTraits.(listed := ItemLabels(r))
  }

  /**
   * `showDialogue(dialogueData[index], index, relative)` (app.js:280-316, 362-381):
   * position bookkeeping and button flags, then the trait overwrite and the
   * label list. Past the end of `data` the dialogue is `undefined`, and reading
   * its `personality` throws after the bookkeeping.
   */
  function Show(s: Session, buttons: Buttons, index: int, relative: Option<int>): Session {
    var moved := Place(s, index, relative);
    if 0 <= index < |s.data| then Display(moved, buttons, s.data[index]) else moved
  }

  /** The bookkeeping at the start of `showDialogue` (app.js:283-300). */
  function Place(s: Session, index: int, relative: Option<int>): Session {
    if Filtering(s) then
      var k := relative.GetOr(s.filteredIndex);
      s.(current := index, filteredIndex := k, shown := k + 1,
         prevDisabled := k <= 0, nextDisabled := k >= |s.filtered| - 1)
    else
      s.(current := index, shown := index + 1,
         prevDisabled := index <= 0, nextDisabled := index >= |s.data| - 1)
  }

  /** `searchDialogues` (app.js:208-267). */
  function SearchDialogues(s: Session, buttons: Buttons): Session {
    if SearchThrows(s.data, s.traits) then s
    else
      var f := Filter(s.data, s.traits, s.strategies);
      if f == [] then
        s.(listed := {}, total := 0, shown := 0, current := -1, filteredIndex := -1, filtered := [],
           prevDisabled := true, nextDisabled := true)
      else
        Show(s.(filtered := f, filteredIndex := 0, total := |f|), buttons, f[0], Some(0))
  }

  /** `showRandomDialogue` (app.js:269-278), with `Math.random` replaced by the position `r`. */
  function RandomDialogue(s: Session, buttons: Buttons, r: nat): Session
    requires |s.data| > 0 ==> r < |s.data|
  {
    if |s.data| > 0 then
      Show(s.(filteredIndex := -1, filtered := [], total := |s.data|), buttons, r, None)
    else s
  }

  /** `resetFilters` (app.js:417-436). */
  function ResetFilters(s: Session, buttons: Buttons, r: nat): Session
    requires |s.data| > 0 ==> r < |s.data|
  {
    var cleared := s.(traits := map[], highlighted := {}, strategies := {}, filteredIndex := -1, filtered := []);
    if |s.data| > 0 then RandomDialogue(cleared, buttons, r) else cleared
  }

  /** `showPreviousDialogue` (app.js:438-451). */
  function Previous(s: Session, buttons: Buttons): Session
    requires Valid(s, buttons)
  {
    if Filtering(s) then
      if s.filteredIndex > 0 then
        Show(s, buttons, s.filtered[s.filteredIndex - 1], Some(s.filteredIndex - 1))
      else s
    else if s.current > 0 then Show(s, buttons, s.current - 1, None)
    else s
  }

  /** `showNextDialogue` (app.js:453-466). */
  function Next(s: Session, buttons: Buttons): Session
    requires Valid(s, buttons)
  {
    if Filtering(s) then
      if s.filteredIndex < |s.filtered| - 1 then
        Show(s, buttons, s.filtered[s.filteredIndex + 1], Some(s.filteredIndex + 1))
      else s
    else if s.current < |s.data| - 1 then Show(s, buttons, s.current + 1, None)
    else s
  }

  /**
   * The `change` handler of the dialogue-number input (app.js:73-91);
   * `input` is `parseInt(this.value)`, `None` for `NaN`.
   */
  function Seek(s: Session, buttons: Buttons, input: Option<int>): Session
    requires Valid(s, buttons)
  {
    if Filtering(s) then
      if input.Some? && 0 <= input.value - 1 < |s.filtered| then
        Show(s, buttons, s.filtered[input.value - 1], Some(input.value - 1))
      else s.(shown := s.filteredIndex + 1)
    else if input.Some? && 0 <= input.value - 1 < |s.data| then
      Show(s, buttons, input.value - 1, None)
    else s.(shown := s.current + 1)
  }

  /** The `click` handler of the trait button (`name`, `value`) (app.js:94-111). */
  function ToggleTrait(s: Session, name: string, value: string): Session {
    if (name, value) in s.highlighted then
      s.(highlighted := s.highlighted - {(name, value)},
         traits := if name in s.traits && s.traits[name] == value then s.traits - {name} else s.traits)
    else
      s.(highlighted := (set b | b in s.highlighted && b.0 != name) + {(name, value)},
         traits := s.traits[name := value])
  }

  /** The `change` handler of the checkbox for `strategy`; `checked` is its new state (app.js:190-196). */
  function ToggleStrategy(s: Session, strategy: string, checked: bool): Session {
    s.(strategies := if checked then s.strategies + {strategy} else s.strategies - {strategy})
  }

  /** The task selector's `change` handler up to the call of `loadData` (app.js:48-71). */
  function SwitchTask(s: Session, task: Task): Session {
    s.(listed := {}, task := task, data := [], traits := map[], highlighted := {}, strategies := {},
       filteredIndex := -1, filtered := [])
  }

  /**
   * The part of `loadData` after the collection has arrived (app.js:136-172),
   * with `Math.random` replaced by the position `r`.
   */
  function Loaded(s: Session, buttons: Buttons, records: seq<Record>, r: nat): Session
    requires |records| > 0 ==> r < |records|
  {
    var reloaded := s.(data := records, total := |records|, filteredIndex := -1, filtered := [],
                    prevDisabled := true, nextDisabled := |records| <= 1,
                    vocabulary := Vocabulary(records));
    if |records| > 0 then Show(reloaded, buttons, r, None) else reloaded
  }

  /** Selecting one more trait highlights exactly its button in addition. */
  lemma HighlightAdd(traits: map<string, string>, name: string, value: string)
    requires name !in traits
    ensures Highlight(traits[name := value]) == Highlight(traits) + {(name, value)}
  {
    var added := traits[name := value];
    forall b | b in Highlight(added) ensures b in Highlight(traits) + {(name, value)} {
      if b.0 != name {
        assert b == (b.0, traits[b.0]);
      }
    }
    forall b | b in Highlight(traits) ensures b in Highlight(added) {
      assert b.0 != name && added[b.0] == traits[b.0];
    }
    assert added[name] == value;
  }

  /** `'high'` and `'low'` read back as the truth values they were written from. */
  lemma LevelReadsBack(high: bool)
    ensures IsHigh(Level(high)) == high
  {
    if high {
      assert LowerAll("high") == "high" by {
        assert forall i | 0 <= i < 4 :: LowerAll("high")[i] == "high"[i];
      }
    } else {
      assert LowerAll("low")[0] == 'l';
    }
  }

  /** The traits selected for a personality are all agreed to by it. */
  lemma AutoTraitsAgree(p: map<string, bool>, buttons: Buttons)
    ensures TraitsMatch(Some(p), AutoTraits(p, buttons))
    ensures forall t | t in AutoTraits(p, buttons) :: (t, AutoTraits(p, buttons)[t]) in buttons
  {
    forall t | t in AutoTraits(p, buttons)
      ensures TraitAgrees(p, t, AutoTraits(p, buttons)[t])
    {
      LevelReadsBack(p[t]);
    }
  }

  /**
   * Showing a dialogue: the new position is the requested one, the number
   * box and both buttons agree with it, the mode and the collection do not
   * change, and a shown record with a personality replaces the selection by
   * exactly its traits that have a button, all of which it agrees to.
   */
  lemma ShowSpec(s: Session, buttons: Buttons, index: int, relative: Option<int>)
    requires WellFormed(s, buttons)
    requires Filtering(s) ==> relative.Some? && 0 <= relative.value < |s.filtered| && index == s.filtered[relative.value]
    requires !Filtering(s) ==> 0 <= index
    ensures var n := Show(s, buttons, index, relative);
      && Valid(n, buttons)
      && Filtering(n) == Filtering(s)
      && n.current == index
      && ActiveIndex(n) == (if Filtering(s) then relative.value else index)
      && n.shown == ActiveIndex(n) + 1
      && n.prevDisabled == (ActiveIndex(n) <= 0)
      && n.nextDisabled == (ActiveIndex(n) >= ActiveLength(s) - 1)
      && n.data == s.data && n.filtered == s.filtered && n.strategies == s.strategies
      && n.vocabulary == s.vocabulary && n.total == s.total && n.task == s.task
      && (index < |s.data| ==> n.listed == ItemLabels(s.data[index]))
      && (index < |s.data| && s.data[index].personality.Some? ==>
            && n.traits == AutoTraits(s.data[index].personality.value, buttons)
            && TraitsMatch(s.data[index].personality, n.traits))
      && (index < |s.data| && s.data[index].personality.None? ==> n.traits == s.traits)
      && (index >= |s.data| ==> n.traits == s.traits && n.listed == s.listed)
  {
    if 0 <= index < |s.data| && s.data[index].personality.Some? {
      AutoTraitsAgree(s.data[index].personality.value, buttons);
    }
  }

  /**
   * Search: a search that throws changes nothing; one that finds nothing
   * leaves unfiltered mode with no dialogue and both buttons disabled; one
   * that finds something enters filtered mode on the first match, whose
   * traits then replace the selected ones.
   */
  lemma SearchSpec(s: Session, buttons: Buttons)
    requires Valid(s, buttons)
    ensures var n := SearchDialogues(s, buttons);
      var f := Filter(s.data, s.traits, s.strategies);
      && Valid(n, buttons)
      && n.data == s.data && n.strategies == s.strategies
      && (SearchThrows(s.data, s.traits) ==> n == s)
      && (!SearchThrows(s.data, s.traits) && f == [] ==>
            && !Filtering(n) && n.filtered == [] && n.current == -1
            && n.total == 0 && n.shown == 0 && n.prevDisabled && n.nextDisabled && n.listed == {})
      && (!SearchThrows(s.data, s.traits) && f != [] ==>
            && Filtering(n) && n.filtered == f && n.filteredIndex == 0 && n.total == |f| && n.shown == 1
            && n.current < |s.data| && Matches(s.data[n.current], s.traits, s.strategies)
            && (forall j | 0 <= j < n.current :: !Matches(s.data[j], s.traits, s.strategies))
            && n.prevDisabled && n.nextDisabled == (|f| == 1)
            && n.listed == ItemLabels(s.data[n.current])
            && (s.data[n.current].personality.Some? ==>
                  n.traits == AutoTraits(s.data[n.current].personality.value, buttons))
            && (s.data[n.current].personality.None? ==> n.traits == s.traits))
  {
    var f := Filter(s.data, s.traits, s.strategies);
    if !SearchThrows(s.data, s.traits) && f != [] {
      FilterExact(s.data, s.traits, s.strategies);
      FilterFirst(s.data, s.traits, s.strategies);
      ShowSpec(s.(filtered := f, filteredIndex := 0, total := |f|), buttons, f[0], Some(0));
    }
  }

  /** Search keeps the state invariant. */
  lemma SearchKeepsValid(s: Session, buttons: Buttons)
    requires Valid(s, buttons)
    ensures Valid(SearchDialogues(s, buttons), buttons)
  {
    SearchSpec(s, buttons);
  }

  /** After a search that finds nothing, Next starts over at the first record and Previous does nothing. */
  lemma NoMatchThenStep(s: Session, buttons: Buttons)
    requires Valid(s, buttons)
    requires !SearchThrows(s.data, s.traits) && Filter(s.data, s.traits, s.strategies) == []
    ensures var n := SearchDialogues(s, buttons);
      && Valid(n, buttons)
      && Previous(n, buttons) == n
      && (s.data == [] ==> Next(n, buttons) == n)
      && (s.data != [] ==> Next(n, buttons).current == 0 && !Filtering(Next(n, buttons))
                           && Next(n, buttons).shown == 1 && Next(n, buttons).prevDisabled)
  {
    SearchSpec(s, buttons);
    var n := SearchDialogues(s, buttons);
    if s.data != [] {
      ShowSpec(n, buttons, 0, None);
    }
  }

  /** Previous steps back by exactly one in the current mode, and does nothing at the start. */
  lemma PreviousSpec(s: Session, buttons: Buttons)
    requires Valid(s, buttons)
    ensures var n := Previous(s, buttons);
      && Valid(n, buttons)
      && Filtering(n) == Filtering(s)
      && n.data == s.data && n.filtered == s.filtered && n.strategies == s.strategies
      && (ActiveIndex(s) > 0 ==>
            && ActiveIndex(n) == ActiveIndex(s) - 1 && n.shown == ActiveIndex(n) + 1
            && n.prevDisabled == (ActiveIndex(n) == 0)
            && n.nextDisabled == (ActiveIndex(n) >= ActiveLength(n) - 1))
      && (ActiveIndex(s) <= 0 ==> n == s)
  {
    if Filtering(s) && s.filteredIndex > 0 {
      ShowSpec(s, buttons, s.filtered[s.filteredIndex - 1], Some(s.filteredIndex - 1));
    } else if !Filtering(s) && s.current > 0 {
      ShowSpec(s, buttons, s.current - 1, None);
    }
  }

  /** Next steps forward by exactly one in the current mode, and does nothing at the end. */
  lemma NextSpec(s: Session, buttons: Buttons)
    requires Valid(s, buttons)
    ensures var n := Next(s, buttons);
      && Valid(n, buttons)
      && Filtering(n) == Filtering(s)
      && n.data == s.data && n.filtered == s.filtered && n.strategies == s.strategies
      && (ActiveIndex(s) < ActiveLength(s) - 1 ==>
            && ActiveIndex(n) == ActiveIndex(s) + 1 && n.shown == ActiveIndex(n) + 1
            && n.prevDisabled == (ActiveIndex(n) <= 0)
            && n.nextDisabled == (ActiveIndex(n) == ActiveLength(n) - 1))
      && (ActiveIndex(s) >= ActiveLength(s) - 1 ==> n == s)
  {
    if Filtering(s) && s.filteredIndex < |s.filtered| - 1 {
      ShowSpec(s, buttons, s.filtered[s.filteredIndex + 1], Some(s.filteredIndex + 1));
    } else if !Filtering(s) && s.current < |s.data| - 1 {
      ShowSpec(s, buttons, s.current + 1, None);
    }
  }

  /** Next then Previous comes back to the same dialogue, in either mode. */
  lemma NextThenPrevious(s: Session, buttons: Buttons)
    requires Valid(s, buttons)
    requires 0 <= ActiveIndex(s) < ActiveLength(s) - 1
    ensures Valid(Next(s, buttons), buttons)
    ensures var b := Previous(Next(s, buttons), buttons);
      b.current == s.current && b.filteredIndex == s.filteredIndex && b.filtered == s.filtered
      && Filtering(b) == Filtering(s)
  {
    NextSpec(s, buttons);
    PreviousSpec(Next(s, buttons), buttons);
  }

  /** A number in 1..length moves there; anything else only rewrites the box with the current number. */
  lemma SeekSpec(s: Session, buttons: Buttons, input: Option<int>)
    requires Valid(s, buttons)
    ensures var n := Seek(s, buttons, input);
      && Valid(n, buttons)
      && Filtering(n) == Filtering(s)
      && n.data == s.data && n.filtered == s.filtered && n.strategies == s.strategies
      && (input.Some? && 1 <= input.value <= ActiveLength(s) ==>
            && ActiveIndex(n) == input.value - 1 && n.shown == input.value
            && n.prevDisabled == (input.value == 1)
            && n.nextDisabled == (input.value == ActiveLength(s)))
      && (!(input.Some? && 1 <= input.value <= ActiveLength(s)) ==> n == s.(shown := ActiveIndex(s) + 1))
  {
    if input.Some? && 1 <= input.value <= ActiveLength(s) {
      if Filtering(s) {
        ShowSpec(s, buttons, s.filtered[input.value - 1], Some(input.value - 1));
      } else {
        ShowSpec(s, buttons, input.value - 1, None);
      }
    }
  }

  /** Random leaves filtered mode on the chosen record; on an empty collection it does nothing. */
  lemma RandomSpec(s: Session, buttons: Buttons, r: nat)
    requires Valid(s, buttons)
    requires |s.data| > 0 ==> r < |s.data|
    ensures var n := RandomDialogue(s, buttons, r);
      && Valid(n, buttons)
      && (|s.data| == 0 ==> n == s)
      && (|s.data| > 0 ==>
            && !Filtering(n) && n.filtered == [] && n.current == r
            && n.total == |s.data| && n.shown == r + 1
            && n.prevDisabled == (r == 0) && n.nextDisabled == (r == |s.data| - 1)
            && n.data == s.data && n.strategies == s.strategies
            && n.listed == ItemLabels(s.data[r])
            && (s.data[r].personality.Some? ==> n.traits == AutoTraits(s.data[r].personality.value, buttons))
            && (s.data[r].personality.None? ==> n.traits == s.traits))
  {
    if |s.data| > 0 {
      ShowSpec(s.(filteredIndex := -1, filtered := [], total := |s.data|), buttons, r, None);
    }
  }

  /**
   * Reset clears the strategies and leaves filtered mode; the selected
   * traits end up empty unless a random record with a personality is shown,
   * whose traits that have a button then become exactly the selection. On an
   * empty collection nothing else changes.
   */
  lemma ResetSpec(s: Session, buttons: Buttons, r: nat)
    requires Valid(s, buttons)
    requires |s.data| > 0 ==> r < |s.data|
    ensures var n := ResetFilters(s, buttons, r);
      && Valid(n, buttons)
      && n.strategies == {} && !Filtering(n) && n.filtered == [] && n.data == s.data
      && (|s.data| == 0 ==>
            n == s.(traits := map[], highlighted := {}, strategies := {}, filteredIndex := -1, filtered := []))
      && (|s.data| > 0 ==>
            && n.current == r && n.shown == r + 1 && n.total == |s.data|
            && n.prevDisabled == (r == 0) && n.nextDisabled == (r == |s.data| - 1)
            && n.listed == ItemLabels(s.data[r]))
      && (|s.data| > 0 && s.data[r].personality.None? ==> n.traits == map[] && n.highlighted == {})
      && (|s.data| > 0 && s.data[r].personality.Some? ==>
            && n.traits == AutoTraits(s.data[r].personality.value, buttons)
            && TraitsMatch(s.data[r].personality, n.traits))
  {
    var cleared := s.(traits := map[], highlighted := {}, strategies := {}, filteredIndex := -1, filtered := []);
    assert Highlight(map[]) == {};
    if |s.data| > 0 {
      ShowSpec(cleared.(total := |s.data|), buttons, r, None);
    }
  }

  /**
   * A trait button toggles its own pair: selecting it replaces any other
   * value of the same trait, deselecting it removes the trait; the
   * highlighted buttons keep matching the selected traits, one per trait.
   */
  lemma ToggleTraitSpec(s: Session, buttons: Buttons, name: string, value: string)
    requires Valid(s, buttons)
    requires (name, value) in buttons
    ensures var n := ToggleTrait(s, name, value);
      && Valid(n, buttons)
      && n == s.(traits := n.traits, highlighted := n.highlighted)
      && (name in s.traits && s.traits[name] == value ==> n.traits == s.traits - {name})
      && (!(name in s.traits && s.traits[name] == value) ==> n.traits == s.traits[name := value])
      && (forall v | (name, v) in n.highlighted :: v == value)
  {
    var n := ToggleTrait(s, name, value);
    if name in s.traits && s.traits[name] == value {
      var kept := s.traits - {name};
      assert (name, value) in s.highlighted;
      forall b | b in n.highlighted ensures b in Highlight(kept) {
        var t := b.0;
        assert t in s.traits && b == (t, s.traits[t]);
        assert t != name;
        assert t in kept && kept[t] == s.traits[t];
      }
      forall b | b in Highlight(kept) ensures b in n.highlighted {
        assert b.0 in s.traits && b.0 != name;
      }
    } else {
      var chosen := s.traits[name := value];
      assert (name, value) !in s.highlighted;
      forall b | b in n.highlighted ensures b in Highlight(chosen) {
        if b.0 != name {
          assert b in s.highlighted;
          var t := b.0;
          assert t in s.traits && b == (t, s.traits[t]);
          assert chosen[t] == s.traits[t];
        } else {
          assert b == (name, value) && chosen[name] == value;
        }
      }
      forall b | b in Highlight(chosen) ensures b in n.highlighted {
        if b.0 != name {
          assert b == (b.0, s.traits[b.0]) && b in s.highlighted;
        }
      }
    }
  }

  /** A checkbox adds or removes exactly its own label. */
  lemma ToggleStrategySpec(s: Session, buttons: Buttons, strategy: string, checked: bool)
    requires Valid(s, buttons)
    ensures var n := ToggleStrategy(s, strategy, checked);
      && Valid(n, buttons)
      && (strategy in n.strategies <==> checked)
      && (forall l | l != strategy :: l in n.strategies <==> l in s.strategies)
  {
  }

  /**
   * Switching task empties the collection, every selection and the label
   * list, and keeps the position and the Previous/Next button states.
   */
  lemma SwitchTaskSpec(s: Session, buttons: Buttons, task: Task)
    requires Valid(s, buttons)
    ensures var n := SwitchTask(s, task);
      && Valid(n, buttons)
      && n.task == task && n.data == [] && n.traits == map[] && n.strategies == {}
      && !Filtering(n) && n.current == s.current
      && ActiveLength(n) == 0
      && n.listed == {} && n.prevDisabled == s.prevDisabled && n.nextDisabled == s.nextDisabled
  {
    assert Highlight(map[]) == {};
  }

  /**
   * A completed load: the collection and its count are replaced, filtered
   * mode is left, the offered labels are the collection's vocabulary, all in
   * canonical form, and a record is shown when there is one.
   */
  lemma LoadedSpec(s: Session, buttons: Buttons, records: seq<Record>, r: nat)
    requires Valid(s, buttons)
    requires |records| > 0 ==> r < |records|
    ensures var n := Loaded(s, buttons, records, r);
      && Valid(n, buttons)
      && n.data == records && n.total == |records| && !Filtering(n) && n.filtered == []
      && n.vocabulary == Vocabulary(records)
      && (forall l | l in n.vocabulary :: IsCanonicalLabel(l))
      && (|records| == 0 ==> n.prevDisabled && n.nextDisabled && n.current == s.current)
      && (|records| > 0 ==>
            && n.current == r && n.shown == r + 1
            && n.prevDisabled == (r == 0) && n.nextDisabled == (r == |records| - 1)
            && n.listed == ItemLabels(records[r]))
  {
    VocabularyCanonical(records);
    if |records| > 0 {
      var reloaded := s.(data := records, total := |records|, filteredIndex := -1, filtered := [],
                         prevDisabled := true, nextDisabled := |records| <= 1,
                         vocabulary := Vocabulary(records));
      ShowSpec(reloaded, buttons, r, None);
    }
  }

  /**
   * Every checkbox label selected alone from a freshly loaded collection
   * finds at least one record, and only records carrying that label.
   */
  lemma OfferedLabelFinds(s: Session, buttons: Buttons, records: seq<Record>, r: nat, l: string)
    requires |records| > 0 ==> r < |records|
    requires l in Loaded(s, buttons, records, r).vocabulary
    ensures var f := Filter(records, map[], {l});
      && f != []
      && forall k | 0 <= k < |f| :: f[k] < |records| && l in ItemLabels(records[f[k]])
  {
    if |records| > 0 {
      var reloaded := s.(data := records, total := |records|, filteredIndex := -1, filtered := [],
                         prevDisabled := true, nextDisabled := |records| <= 1,
                         vocabulary := Vocabulary(records));
      assert Loaded(s, buttons, records, r).vocabulary == Show(reloaded, buttons, r, None).vocabulary;
    }
    VocabularyLabelSelects(records, l);
    FilterExact(records, map[], {l});
  }

  /**
   * Between a task switch and the completion of the next load, Previous
   * still steps the stale position back and rewrites the number box and the
   * buttons, although the collection is empty (reading the missing record
   * then throws, so nothing else changes).
   */
  lemma PreviousAfterSwitch(s: Session, buttons: Buttons, task: Task)
    requires Valid(s, buttons) && s.current > 0
    ensures Valid(SwitchTask(s, task), buttons)
    ensures var n := Previous(SwitchTask(s, task), buttons);
      && n.data == [] && n.current == s.current - 1 && n.shown == s.current
      && n.prevDisabled == (s.current == 1) && n.nextDisabled
      && n.traits == map[] && n.listed == {}
  {
    SwitchTaskSpec(s, buttons, task);
  }
}
