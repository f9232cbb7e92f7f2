/** The tag and category selectors (src/components/TagCloud.tsx:23-32):
    clicking an item selects it, clicking the selected item clears the
    selection, and the selected item is the highlighted one. */
module TagCloud {
  import opened Wrappers
  import opened Seqs

  /** `onItemSelect(selectedItem === item ? null : item)`. */
  function Toggle<T(==)>(sel: Option<T>, item: T): (r: Option<T>)
    ensures r == None || r == Some(item)
  {
    if sel == Some(item) then None else Some(item)
  }

  /** `selectedItem === item`: the item drawn highlighted. */
  predicate Highlighted<T(==)>(sel: Option<T>, item: T) {
    sel == Some(item)
  }

  /** A click flips the clicked item's highlight and leaves every other
      item unhighlighted. */
  lemma ToggleFlips<T>(sel: Option<T>, item: T, other: T)
    requires other != item
    ensures Highlighted(Toggle(sel, item), item) <==> !Highlighted(sel, item)
    ensures !Highlighted(Toggle(sel, item), other)
  {
  }

  /** Clicking the same item twice, from nothing selected or from that
      item selected, restores the selection. */
  lemma ToggleTwice<T>(sel: Option<T>, item: T)
    requires sel == None || sel == Some(item)
    ensures Toggle(Toggle(sel, item), item) == sel
  {
  }

  /** From another item selected, two clicks on an item leave nothing
      selected. */
  lemma ToggleTwiceFromOther<T>(sel: Option<T>, item: T)
    requires sel.Some? && sel.value != item
    ensures Toggle(Toggle(sel, item), item) == None
  {
  }

  /** Among distinct items at most one is highlighted. */
  lemma AtMostOneHighlighted<T(!new)>(items: seq<T>, sel: Option<T>, i: nat, j: nat)
    requires NoDuplicates(items) && i < |items| && j < |items|
    requires Highlighted(sel, items[i]) && Highlighted(sel, items[j])
    ensures i == j
  {
  }
}
