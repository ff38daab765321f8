/** The loaded collection of dialogue records and its strategy vocabulary. */
module Dataset {
  import opened Wrappers
  import opened Labels

  /**
   * One dialogue record, reduced to what the filter reads: `personality`
   * (trait name to high/low) and the `record` array of strategy annotations.
   * `None` stands for a property that is absent or not an array.
   */
  datatype Record = Record(personality: Option<map<string, bool>>, annotations: Option<seq<Annotation>>)

  /** The labels of one record; nothing when it has no `record` array. */
  function ItemLabels(r: Record): set<string>
  {
    match r.annotations
    case Some(anns) => RecordLabels(anns)
    case None => {}
  }

  /** The labels offered as strategy checkboxes: the union over the whole collection. */
  function Vocabulary(data: seq<Record>): set<string>
  {
    UnionOver(data, ItemLabels)
  }

  /** The `allStrategies` loop of `loadData` (app.js:146-160). */
  method CollectVocabulary(data: seq<Record>) returns (vocab: set<string>)
    ensures vocab == Vocabulary(data)
  {
    vocab := {};
    for i := 0 to |data|
      invariant vocab == Vocabulary(data[..i])
    {
      assert data[..i + 1][..i] == data[..i];
      match data[i].annotations {
        case Some(anns) =>
          vocab := CollectLabels(anns, vocab);
        case None =>
      }
    }
    assert data[..|data|] == data;
  }

  /** A label is in the vocabulary exactly when some record of the collection yields it. */
  lemma VocabularyExact(data: seq<Record>, l: string)
    ensures l in Vocabulary(data) <==> exists i | 0 <= i < |data| :: l in ItemLabels(data[i])
  {
    UnionOverExact(data, ItemLabels, l);
  }

  /** Every vocabulary label is non-empty, trimmed and normalised. */
  lemma VocabularyCanonical(data: seq<Record>)
    ensures forall l | l in Vocabulary(data) :: IsCanonicalLabel(l)
  {
    forall l | l in Vocabulary(data)
      ensures IsCanonicalLabel(l)
    {
      VocabularyExact(data, l);
      var i :| 0 <= i < |data| && l in ItemLabels(data[i]);
      RecordLabelsCanonical(data[i].annotations.value);
    }
  }
}
