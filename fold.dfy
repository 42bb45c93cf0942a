/**
 * The shape shared by both patchers' loops: a text is reassigned once per
 * item, by a step that rewrites it. When every step keeps the line breaks it
 * is given and adds some whenever it changes the text, the loop changes the
 * text exactly when one of its steps does.
 */
module StepFold {
  import opened Text

  /** The text after a loop that applies `step` for each of `items` in order. */
  function Fold<M>(step: (string, M) -> string, t: string, items: seq<M>): string {
    if |items| == 0 then t else step(Fold(step, t, items[..|items| - 1]), items[|items| - 1])
  }

  /** One more item is one more step on the text the earlier items left. */
  lemma FoldSnoc<M>(step: (string, M) -> string, t: string, items: seq<M>, m: M)
    ensures Fold(step, t, items + [m]) == step(Fold(step, t, items), m)
  {
    assert (items + [m])[..|items|] == items;
  }

  /** Step `k` of the loop changes the text the earlier steps left. */
  predicate StepChanges<M>(step: (string, M) -> string, t: string, items: seq<M>, k: nat)
    requires k < |items|
  {
    var before := Fold(step, t, items[..k]);
    step(before, items[k]) != before
  }

  ghost predicate SomeStepChanges<M>(step: (string, M) -> string, t: string, items: seq<M>) {
    exists k: nat | k < |items| :: StepChanges(step, t, items, k)
  }

  /** Every step keeps the line breaks it is given, and adds some whenever it changes the text. */
  ghost predicate Grows<M>(step: (string, M) -> string, items: seq<M>) {
    forall x: string, m: M | m in items ::
      Count(step(x, m), '\n') >= Count(x, '\n') && (step(x, m) != x ==> Count(step(x, m), '\n') > Count(x, '\n'))
  }

  /** A step of a longer loop that changes the text is either its last step or a step of the shorter loop. */
  lemma StepSplit<M>(step: (string, M) -> string, t: string, items: seq<M>)
    requires |items| > 0 && SomeStepChanges(step, t, items)
    ensures SomeStepChanges(step, t, items[..|items| - 1]) || StepChanges(step, t, items, |items| - 1)
  {
    var n := |items| - 1;
    var k: nat :| k < |items| && StepChanges(step, t, items, k);
    if k < n {
      var init := items[..n];
      assert init[..k] == items[..k] && init[k] == items[k];
      assert StepChanges(step, t, init, k);
    }
  }

  /**
   * A loop of growing steps never removes line breaks, and adds some as
   * soon as one step changes the text.
   */
  lemma {:induction false} FoldCount<M>(step: (string, M) -> string, t: string, items: seq<M>)
    requires Grows(step, items)
    decreases |items|
    ensures Count(Fold(step, t, items), '\n') >= Count(t, '\n')
    ensures SomeStepChanges(step, t, items) ==> Count(Fold(step, t, items), '\n') > Count(t, '\n')
  {
    if |items| > 0 {
      var n := |items| - 1;
      var before := Fold(step, t, items[..n]);
      assert items[n] in items;
      assert Grows(step, items[..n]) by {
        assert forall x | x in items[..n] :: x in items;
      }
      FoldCount(step, t, items[..n]);
      if SomeStepChanges(step, t, items) {
        StepSplit(step, t, items);
        assert items[..n] == items[..|items| - 1];
      }
    }
  }

  lemma {:induction false} NoStepUnchanged<M>(step: (string, M) -> string, t: string, items: seq<M>)
    requires !SomeStepChanges(step, t, items)
    decreases |items|
    ensures Fold(step, t, items) == t
  {
    if |items| > 0 {
      var n := |items| - 1;
      var init := items[..n];
      assert !SomeStepChanges(step, t, init) by {
        forall k: nat | k < n ensures !StepChanges(step, t, init, k) {
          assert init[..k] == items[..k] && init[k] == items[k];
          assert !StepChanges(step, t, items, k);
        }
      }
      NoStepUnchanged(step, t, init);
      assert !StepChanges(step, t, items, n);
    }
  }

  /** A loop of growing steps changes the text exactly when one of its steps does. */
  lemma FoldChanged<M>(step: (string, M) -> string, t: string, items: seq<M>)
    requires Grows(step, items)
    ensures Fold(step, t, items) != t <==> SomeStepChanges(step, t, items)
  {
    FoldCount(step, t, items);
    if !SomeStepChanges(step, t, items) {
      NoStepUnchanged(step, t, items);
    }
  }

  /** A loop over three items applies the step three times, in order. */
  lemma FoldThree<M>(step: (string, M) -> string, t: string, a: M, b: M, c: M)
    ensures Fold(step, t, [a, b, c]) == step(step(step(t, a), b), c)
  {
    assert [a, b, c][..2] == [a, b];
    assert [a, b][..1] == [a];
    assert [a][..0] == [];
    assert Fold(step, t, [a]) == step(t, a);
    assert Fold(step, t, [a, b]) == step(step(t, a), b);
  }
}
