/**
 * The page script itself: one object holding the module-level variables of
 * app.js and the page controls its handlers write, with one method per
 * handler. Each method updates the fields in place and is proved to leave
 * them exactly as the corresponding `Navigation` function says.
 */
module App {
  import opened Wrappers
  import opened Labels
  import opened Dataset
  import opened Search
  import opened Navigation

  /**
   * The trait loop of `showDialogue` (app.js:303-315): every trait of the
   * personality whose button exists is selected at its level and its
   * button highlighted.
   */
  method SelectTraits(p: map<string, bool>, buttons: Buttons) returns (traits: map<string, string>, highlighted: set<(string, string)>)
    ensures traits == AutoTraits(p, buttons)
    ensures highlighted == Highlight(traits)
  {
    traits := map[];
    highlighted := {};
    var pending := p.Keys;
    while pending != {}
      invariant pending <= p.Keys
      invariant traits == map t | t in p && t !in pending && (t, Level(p[t])) in buttons :: Level(p[t])
      invariant highlighted == Highlight(traits)
      decreases pending
    {
      var t :| t in pending;
      var level := if p[t] then "high" else "low";
      if (t, level) in buttons {
        HighlightAdd(traits, t, level);
        highlighted := highlighted + {(t, level)};
        traits := traits[t := level];
      }
      pending := pending - {t};
    }
  }

  /**
   * The `dialogueData.filter` call of `searchDialogues` (app.js:209-245):
   * `None` when it throws on a record without a personality, otherwise the
   * positions of the kept records.
   */
  method FilterRecords(data: seq<Record>, traits: map<string, string>, strategies: set<string>) returns (outcome: Option<seq<nat>>)
    ensures outcome.None? <==> SearchThrows(data, traits)
    ensures outcome.Some? ==> outcome.value == Filter(data, traits, strategies)
  {
    var found: seq<nat> := [];
    for i := 0 to |data|
      invariant found == Filter(data[..i], traits, strategies)
      invariant traits != map[] ==> forall j | 0 <= j < i :: data[j].personality.Some?
    {
      assert data[..i + 1][..i] == data[..i];
      var item := data[i];
      var matchesTraits := true;
      if traits != map[] {
        if item.personality.None? {
          return None;
        }
        matchesTraits := TraitsAgree(item.personality.value, traits);
      }
      var matchesStrategies := true;
      if strategies != {} {
        match item.annotations {
          case None =>
            matchesStrategies := false;
          case Some(anns) =>
            var labels := CollectLabels(anns, {});
            matchesStrategies := strategies <= labels;
        }
      }
      if matchesTraits && matchesStrategies {
        found := found + [i];
      }
    }
    assert data[..|data|] == data;
    return Some(found);
  }

  class Explorer {
    /** The trait buttons present on the page; the script never adds or removes any. */
    const buttons: Buttons

    var task: Task
    var data: seq<Record>
    var current: int
    var filtered: seq<nat>
    var filteredIndex: int
    var traits: map<string, string>
    var highlighted: set<(string, string)>
    var strategies: set<string>
    var vocabulary: set<string>
    var listed: set<string>
    var prevDisabled: bool
    var nextDisabled: bool
    var shown: int
    var total: int

    function Snapshot(): Session
      reads this
    {
      Session(task, data, current, filtered, filteredIndex, traits, highlighted, strategies,
              vocabulary, listed, prevDisabled, nextDisabled, shown, total)
    }

    ghost predicate Valid()
      reads this
    {
      Navigation.Valid(Snapshot(), buttons)
    }

    /** The declarations at app.js:28-36, before the first load completes. */
    constructor (buttons: Buttons)
      ensures Valid()
      ensures this.buttons == buttons
      ensures Snapshot() == Session(Image, [], 0, [], -1, map[], {}, {}, {}, {}, false, false, 0, 0)
    {
      this.buttons := buttons;
      task := Image;
      data := [];
      current := 0;
      filtered := [];
      filteredIndex := -1;
      traits := map[];
      highlighted := {};
      strategies := {};
      vocabulary := {};
      listed := {};
      prevDisabled := false;
      nextDisabled := false;
      shown := 0;
      total := 0;
      new;
      assert Highlight(map[]) == {};
    }

    /** `showDialogue(dialogueData[index], index, relative)` (app.js:280-316, 362-381). */
    method ShowDialogue(index: int, relative: Option<int>)
      modifies this
      ensures Snapshot() == Show(old(Snapshot()), buttons, index, relative)
    {
      PlaceDialogue(index, relative);
      if 0 <= index < |data| {
        DisplayRecord(data[index]);
      }
    }

    /** The index bookkeeping of `showDialogue` (app.js:283-300). */
    method PlaceDialogue(index: int, relative: Option<int>)
      modifies this
      ensures Snapshot() == Place(old(Snapshot()), index, relative)
    {
      current := index;
      if filteredIndex >= 0 && |filtered| > 0 {
        if relative.Some? {
          filteredIndex := relative.value;
        }
        shown := filteredIndex + 1;
        prevDisabled := filteredIndex <= 0;
        nextDisabled := filteredIndex >= |filtered| - 1;
      } else {
        shown := index + 1;
        prevDisabled := current <= 0;
        nextDisabled := current >= |data| - 1;
      }
    }

    /** The trait overwrite and the label list of `showDialogue` (app.js:302-316, 362-381). */
    method DisplayRecord(dialogue: Record)
      modifies this
      ensures Snapshot() == Display(old(Snapshot()), buttons, dialogue)
    {
      match dialogue.personality {
        case None =>
        case Some(p) =>
          traits, highlighted := SelectTraits(p, buttons);
      }
      listed := {};
      match dialogue.annotations {
        case None =>
        case Some(anns) =>
          listed := CollectLabels(anns, {});
      }
    }

    /** `searchDialogues` (app.js:208-267); a record without a personality aborts it while traits are selected. */
    method SearchDialogues()
      requires Valid()
      modifies this
      ensures Valid()
      ensures Snapshot() == Navigation.SearchDialogues(old(Snapshot()), buttons)
    {
      ghost var before := Snapshot();
      var outcome := FilterRecords(data, traits, strategies);
      if outcome.None? {
        assert Snapshot() == Navigation.SearchDialogues(before, buttons);
        return;
      }
      var found := outcome.value;
      if found == [] {
        ShowNoMatch();
        assert Snapshot() == Navigation.SearchDialogues(before, buttons);
      } else {
        filtered, filteredIndex, total := found, 0, |found|;
        assert Snapshot() == before.(filtered := found, filteredIndex := 0, total := |found|);
        ShowDialogue(found[0], Some(0));
      }
      SearchKeepsValid(before, buttons);
    }

    /** The no-match branch of `searchDialogues` (app.js:247-257). */
    method ShowNoMatch()
      modifies this
      ensures Snapshot() == old(Snapshot()).(listed := {}, total := 0, shown := 0, current := -1, filteredIndex := -1,
                                            filtered := [], prevDisabled := true, nextDisabled := true)
    {
      ghost var s0 := Snapshot();
      ClearResult();
      listed, total, shown := {}, 0, 0;
      current := -1;
      prevDisabled, nextDisabled := true, true;
      assert Snapshot() == s0.(listed := {}, total := 0, shown := 0, current := -1, filteredIndex := -1,
                                            filtered := [], prevDisabled := true, nextDisabled := true);
    }

    /** `showRandomDialogue` (app.js:269-278); `r` stands for the random position. */
    method ShowRandomDialogue(r: nat)
      requires Valid()
      requires |data| > 0 ==> r < |data|
      modifies this
      ensures Valid()
      ensures Snapshot() == RandomDialogue(old(Snapshot()), buttons, r)
    {
      ghost var s0 := Snapshot();
      if |data| > 0 {
        ClearResult();
        total := |data|;
        ShowDialogue(r, None);
      }
      assert Snapshot() == RandomDialogue(s0, buttons, r);
      RandomSpec(s0, buttons, r);
    }

    /** `resetFilters` (app.js:417-436). */
    method ResetFilters(r: nat)
      requires Valid()
      requires |data| > 0 ==> r < |data|
      modifies this
      ensures Valid()
      ensures Snapshot() == Navigation.ResetFilters(old(Snapshot()), buttons, r)
    {
      ghost var s0 := Snapshot();
      ClearSelection();
      assert Highlight(map[]) == {};
      if |data| > 0 {
        ShowRandomDialogue(r);
      }
      assert Snapshot() == Navigation.ResetFilters(s0, buttons, r);
      ResetSpec(s0, buttons, r);
    }

    /** `showPreviousDialogue` (app.js:438-451). */
    method ShowPrevious()
      requires Valid()
      modifies this
      ensures Valid()
      ensures Snapshot() == Previous(old(Snapshot()), buttons)
    {
      ghost var s0 := Snapshot();
      if filteredIndex >= 0 && |filtered| > 0 {
        if filteredIndex > 0 {
          var relative := filteredIndex - 1;
          ShowDialogue(filtered[relative], Some(relative));
        }
      } else if current > 0 {
        ShowDialogue(current - 1, None);
      }
      assert Snapshot() == Previous(s0, buttons);
      PreviousSpec(s0, buttons);
    }

    /** `showNextDialogue` (app.js:453-466). */
    method ShowNext()
      requires Valid()
      modifies this
      ensures Valid()
      ensures Snapshot() == Next(old(Snapshot()), buttons)
    {
      ghost var s0 := Snapshot();
      if filteredIndex >= 0 && |filtered| > 0 {
        if filteredIndex < |filtered| - 1 {
          var relative := filteredIndex + 1;
          ShowDialogue(filtered[relative], Some(relative));
        }
      } else if current < |data| - 1 {
        ShowDialogue(current + 1, None);
      }
      assert Snapshot() == Next(s0, buttons);
      NextSpec(s0, buttons);
    }

    /** The dialogue-number input's `change` handler (app.js:73-91); `input` is `parseInt` of its text. */
    method SeekDialogue(input: Option<int>)
      requires Valid()
      modifies this
      ensures Valid()
      ensures Snapshot() == Seek(old(Snapshot()), buttons, input)
    {
      ghost var s0 := Snapshot();
      if filteredIndex >= 0 && |filtered| > 0 {
        if input.Some? && 0 <= input.value - 1 < |filtered| {
          ShowDialogue(filtered[input.value - 1], Some(input.value - 1));
        } else {
          shown := filteredIndex + 1;
        }
      } else if input.Some? && 0 <= input.value - 1 < |data| {
        ShowDialogue(input.value - 1, None);
      } else {
        shown := current + 1;
      }
      assert Snapshot() == Seek(s0, buttons, input);
      SeekSpec(s0, buttons, input);
    }

    /** A click on the trait button (`name`, `value`) (app.js:94-111). */
    method ClickTrait(name: string, value: string)
      requires Valid()
      requires (name, value) in buttons
      modifies this
      ensures Valid()
      ensures Snapshot() == ToggleTrait(old(Snapshot()), name, value)
    {
      ghost var s0 := Snapshot();
      if (name, value) in highlighted {
        highlighted := highlighted - {(name, value)};
        if name in traits && traits[name] == value {
          traits := traits - {name};
        }
      } else {
        highlighted := (set b | b in highlighted && b.0 != name) + {(name, value)};
        traits := traits[name := value];
      }
      assert Snapshot() == ToggleTrait(s0, name, value);
      ToggleTraitSpec(s0, buttons, name, value);
    }

    /** The checkbox for `strategy` changing to `checked` (app.js:190-196). */
    method CheckStrategy(strategy: string, checked: bool)
      requires Valid()
      modifies this
      ensures Valid()
      ensures Snapshot() == ToggleStrategy(old(Snapshot()), strategy, checked)
    {
      ghost var s0 := Snapshot();
      if checked {
        strategies := strategies + {strategy};
      } else {
        strategies := strategies - {strategy};
      }
      assert Snapshot() == ToggleStrategy(s0, strategy, checked);
      ToggleStrategySpec(s0, buttons, strategy, checked);
    }

    /** The task selector's `change` handler up to its call of `loadData` (app.js:48-71). */
    method SelectTask(newTask: Task)
      requires Valid()
      modifies this
      ensures Valid()
      ensures Snapshot() == SwitchTask(old(Snapshot()), newTask)
    {
      ghost var s0 := Snapshot();
      listed := {};
      task := newTask;
      data := [];
      ClearSelection();
      assert Snapshot() == SwitchTask(s0, newTask);
      SwitchTaskSpec(s0, buttons, newTask);
    }

    /** `loadData` once `records` have arrived (app.js:136-172); `r` stands for the random position. */
    method LoadCompleted(records: seq<Record>, r: nat)
      requires Valid()
      requires |records| > 0 ==> r < |records|
      modifies this
      ensures Valid()
      ensures Snapshot() == Loaded(old(Snapshot()), buttons, records, r)
    {
      ghost var s0 := Snapshot();
      InstallRecords(records);
      if |records| > 0 {
        ShowDialogue(r, None);
      }
      assert Snapshot() == Loaded(s0, buttons, records, r);
      LoadedSpec(s0, buttons, records, r);
    }

    /** Discards the search result: no filtered list and no filtered position (app.js:67-68, 140-141, 271-272, 428-429). */
    method ClearResult()
      modifies this
      ensures Snapshot() == old(Snapshot()).(filteredIndex := -1, filtered := [])
    {
      filteredIndex, filtered := -1, [];
    }

    /** Drops every selected trait and strategy and the current search result (app.js:57-68, 418-429). */
    method ClearSelection()
      modifies this
      ensures Snapshot() == old(Snapshot()).(traits := map[], highlighted := {}, strategies := {}, filteredIndex := -1, filtered := [])
    {
      traits, highlighted, strategies := map[], {}, {};
      ClearResult();
    }

    /** The bookkeeping of `loadData` once `records` have arrived, before the first dialogue is shown (app.js:136-160). */
    method InstallRecords(records: seq<Record>)
      modifies this
      ensures Snapshot() == old(Snapshot()).(data := records, total := |records|, filteredIndex := -1, filtered := [],
                                            prevDisabled := true, nextDisabled := |records| <= 1,
                                            vocabulary := Vocabulary(records))
    {
      ClearResult();
      data, total := records, |records|;
      prevDisabled, nextDisabled := true, |records| <= 1;
      vocabulary := CollectVocabulary(records);
    }
  }
}
