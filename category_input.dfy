/**
 * The radio button of src/components/ui/CategoryInput.jsx. The component
 * holds no state of its own: whether it is checked is derived from a
 * category string owned by its parent, and its change handler writes that
 * category back through the parent's setter.
 */
module CategoryInput {

  /** The part of a change event the handler reads: e.target.value and e.target.checked. */
  datatype ChangeEvent = ChangeEvent(value: string, checked: bool)

  /** The rendered `checked` attribute of the radio whose value is `value`. */
  predicate RadioChecked(category: string, value: string)
  {
    category == value
  }

  /** No value occurs twice. */
  predicate Distinct(values: seq<string>)
  {
    forall i, j :: 0 <= i < j < |values| ==> values[i] != values[j]
  }

  /**
   * The shared category after handleChange: a checked target selects its
   * own value; an unchecked target leaves the category as it was.
   */
  function AfterChange(category: string, e: ChangeEvent): (next: string)
    ensures e.checked ==> RadioChecked(next, e.value)
    ensures !e.checked ==> next == category
  {
    if e.checked then e.value else category
  }

  /** Radios with distinct values that share one category: at most one of them is checked. */
  lemma AtMostOneChecked(values: seq<string>, category: string, i: nat, j: nat)
    requires Distinct(values) && i < |values| && j < |values|
    requires RadioChecked(category, values[i]) && RadioChecked(category, values[j])
    ensures i == j
  {
  }

  /** After a handled change on the radio at index i, that radio and no other of the group is checked. */
  lemma ChangeChecksOnlyTarget(values: seq<string>, category: string, e: ChangeEvent, i: nat)
    requires Distinct(values) && i < |values| && values[i] == e.value && e.checked
    ensures forall k :: 0 <= k < |values| ==> (RadioChecked(AfterChange(category, e), values[k]) <==> k == i)
  {
    forall k | 0 <= k < |values|
      ensures RadioChecked(AfterChange(category, e), values[k]) <==> k == i
    {
      if RadioChecked(AfterChange(category, e), values[k]) {
        AtMostOneChecked(values, AfterChange(category, e), k, i);
      }
    }
  }

  /** A change event whose target is not checked leaves every radio of the group as it was. */
  lemma UncheckedChangeKeepsSelection(values: seq<string>, category: string, e: ChangeEvent)
    requires !e.checked
    ensures forall k :: 0 <= k < |values| ==>
      (RadioChecked(AfterChange(category, e), values[k]) <==> RadioChecked(category, values[k]))
  {
  }

  /** The parent's category state that a group of CategoryInput radios shares; setCategory assigns it. */
  class CategoryState {
    var category: string

    constructor (initial: string)
      ensures category == initial
    {
      category := initial;
    }

    /** handleChange: setCategory(e.target.value) only when e.target.checked. */
    method HandleChange(e: ChangeEvent)
      modifies this
      ensures category == AfterChange(old(category), e)
      ensures e.checked ==> category == e.value
      ensures !e.checked ==> category == old(category)
    {
      if e.checked {
        category := e.value;
      }
    }
  }
}
