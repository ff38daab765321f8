/**
 * Strategy labels: how one record's `record[i].strategy` annotations become
 * the set of labels the page offers as checkboxes, lists beside a dialogue and
 * matches selected strategies against (app.js:146-160, 224-234, 364-374).
 */
module Labels {
  import opened Wrappers
  import opened Text

  /** One element of a record's `record` array; `strategy` is `None` when the property is absent. */
  datatype Annotation = Annotation(strategy: Option<string>)

  /** `capitalizeStrategy(s.trim())` when `s.trim()` is not empty, else nothing. */
  function PieceLabel(piece: string): set<string>
  {
    var t := Trim(piece);
    if t == [] then {} else {Normalize(t)}
  }

  /** The union of `f(x)` over the elements of `xs`, as a `forEach` that adds into one `Set`. */
  function UnionOver<T>(xs: seq<T>, f: T -> set<string>): set<string>
    decreases |xs|
  {
    if xs == [] then {} else UnionOver(xs[..|xs| - 1], f) + f(xs[|xs| - 1])
  }

  function PieceLabels(pieces: seq<string>): set<string>
  {
    UnionOver(pieces, PieceLabel)
  }

  /** The labels of one annotation text: split on the separator, trim, drop empties, normalise. */
  function TextLabels(text: string): set<string>
  {
    PieceLabels(Split(text, StrategySeparator))
  }

  /** `if (record.strategy)`: an absent or empty `strategy` contributes nothing. */
  function AnnotationLabels(a: Annotation): set<string>
  {
    match a.strategy
    case Some(text) => if text == [] then {} else TextLabels(text)
    case None => {}
  }

  /** The union of the labels of all annotations of one record. */
  function RecordLabels(anns: seq<Annotation>): set<string>
  {
    UnionOver(anns, AnnotationLabels)
  }

  /** A label extraction can produce: non-empty, already trimmed and already normalised. */
  predicate IsCanonicalLabel(l: string) {
    l != [] && Trim(l) == l && Normalize(l) == l
  }

  /**
   * The `forEach` loops that add `capitalizeStrategy(s.trim())` for every
   * non-empty piece of every annotation to a `Set` (the same code at
   * app.js:149-158, 225-234 and 365-374).
   */
  method CollectLabels(anns: seq<Annotation>, into: set<string>) returns (labels: set<string>)
    ensures labels == into + RecordLabels(anns)
  {
    labels := into;
    for i := 0 to |anns|
      invariant labels == into + RecordLabels(anns[..i])
    {
      assert anns[..i + 1][..i] == anns[..i];
      match anns[i].strategy {
        case None =>
        case Some(text) =>
          if text != [] {
            var pieces := Split(text, StrategySeparator);
            for j := 0 to |pieces|
              invariant labels == into + RecordLabels(anns[..i]) + PieceLabels(pieces[..j])
            {
              assert pieces[..j + 1][..j] == pieces[..j];
              var t := Trim(pieces[j]);
              if t != [] {
                labels := labels + {Normalize(t)};
              }
            }
            assert pieces[..|pieces|] == pieces;
          }
      }
    }
    assert anns[..|anns|] == anns;
  }

  /** A label is in the union exactly when one element contributes it. */
  lemma {:induction false} UnionOverExact<T>(xs: seq<T>, f: T -> set<string>, l: string)
    ensures l in UnionOver(xs, f) <==> exists k | 0 <= k < |xs| :: l in f(xs[k])
    decreases |xs|
  {
    if xs != [] {
      var init := xs[..|xs| - 1];
      UnionOverExact(init, f, l);
      if l in UnionOver(init, f) {
        var k :| 0 <= k < |init| && l in f(init[k]);
        assert xs[k] == init[k];
      }
      if exists k | 0 <= k < |xs| :: l in f(xs[k]) {
        var k :| 0 <= k < |xs| && l in f(xs[k]);
        if k < |init| {
          assert init[k] == xs[k];
        }
      }
    }
  }

  /** The labels of a list of pieces are exactly the normalised non-empty trimmed pieces. */
  lemma PieceLabelsExact(pieces: seq<string>, l: string)
    ensures l in PieceLabels(pieces) <==>
      exists k | 0 <= k < |pieces| :: Trim(pieces[k]) != [] && l == Normalize(Trim(pieces[k]))
  {
    UnionOverExact(pieces, PieceLabel, l);
  }

  /** The labels of a record are exactly the labels of its annotations, together. */
  lemma RecordLabelsExact(anns: seq<Annotation>, l: string)
    ensures l in RecordLabels(anns) <==> exists k | 0 <= k < |anns| :: l in AnnotationLabels(anns[k])
  {
    UnionOverExact(anns, AnnotationLabels, l);
  }

  /** Each extracted label is non-empty, trimmed and a fixed point of `capitalizeStrategy`. */
  lemma PieceLabelCanonical(piece: string)
    ensures forall l | l in PieceLabel(piece) :: IsCanonicalLabel(l)
  {
    var t := Trim(piece);
    if t != [] {
      NormalizeTrimmed(t);
      NormalizeIdempotent(t);
    }
  }

  /** Every label of an annotation text is canonical. */
  lemma TextLabelsCanonical(text: string)
    ensures forall l | l in TextLabels(text) :: IsCanonicalLabel(l)
  {
    var pieces := Split(text, StrategySeparator);
    forall l | l in TextLabels(text)
      ensures IsCanonicalLabel(l)
    {
      PieceLabelsExact(pieces, l);
      var k :| 0 <= k < |pieces| && Trim(pieces[k]) != [] && l == Normalize(Trim(pieces[k]));
      PieceLabelCanonical(pieces[k]);
    }
  }

  /** Every label of a record is canonical: extracting it again gives it back unchanged. */
  lemma RecordLabelsCanonical(anns: seq<Annotation>)
    ensures forall l | l in RecordLabels(anns) :: IsCanonicalLabel(l)
  {
    forall l | l in RecordLabels(anns)
      ensures IsCanonicalLabel(l)
    {
      RecordLabelsExact(anns, l);
      var k :| 0 <= k < |anns| && l in AnnotationLabels(anns[k]);
      TextLabelsCanonical(anns[k].strategy.value);
    }
  }

  /** A canonical label, offered as the whole of an annotation, is extracted as itself. */
  lemma CanonicalLabelRoundTrip(l: string)
    requires IsCanonicalLabel(l)
    requires SeparatorFree(StrategySeparator, l)
    ensures TextLabels(l) == {l}
  {
    SplitWithoutSeparator(l, StrategySeparator);
    PieceLabelsExact([l], l);
    forall m | m in TextLabels(l)
      ensures m == l
    {
      PieceLabelsExact([l], m);
    }
  }
}
