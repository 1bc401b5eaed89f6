/**
 * The ang-select dropdown component as a state machine: whether the list
 * is open, the selected item and its index, the filtered list and the
 * search term, updated in place by keyboard, blur, search and
 * form-binding events.
 */
module AngSelect {
  import opened Wrappers
  import opened AngSelectLogic

  /**
   * `T` is the item type and `K` the type of an item's bound key. The
   * string-keyed field access of the component is replaced by two
   * functions supplied with the inputs: `text` (the `bindText` field)
   * and, when `bindValue` is set, the key function it holds.
   */
  class AngSelectComponent<T(==), K(==)> {
    // Inputs, supplied once by the host.
    const items: seq<T>
    const text: T -> string
    const bindValue: Option<T -> K>
    const allowClear: bool
    /** Special-character stripping followed by upper-casing. */
    const norm: string -> string

    // Interaction state.
    var isOpen: bool
    var selectedItem: Option<T>
    var searchValue: Option<string>
    var filteredItems: seq<T>
    var selectedItemIndex: int

    /** Every value passed to the registered value-change callback, oldest first. */
    ghost var notified: seq<Change<T, K>>
    /** How many deferred scroll-to-selected requests have been scheduled. */
    ghost var scrollRequests: nat

    /** The filtered list is always drawn from `items`, in their order. */
    ghost predicate Valid()
      reads this`filteredItems
    {
      Subsequence(filteredItems, items)
    }

    constructor (items: seq<T>, text: T -> string, bindValue: Option<T -> K>, allowClear: bool, norm: string -> string)
      ensures Valid()
      ensures this.items == items && this.text == text && this.bindValue == bindValue
      ensures this.allowClear == allowClear && this.norm == norm
      ensures !isOpen && selectedItem == None && searchValue == None
      ensures filteredItems == [] && selectedItemIndex == -1
      ensures notified == [] && scrollRequests == 0
    {
      this.items := items;
      this.text := text;
      this.bindValue := bindValue;
      this.allowClear := allowClear;
      this.norm := norm;
      isOpen := false;
      selectedItem := None;
      searchValue := None;
      filteredItems := [];
      selectedItemIndex := -1;
      notified := [];
      scrollRequests := 0;
    }

    /** Initialisation shows every item. */
    method NgOnInit()
      requires Valid()
      modifies this`filteredItems
      ensures Valid()
      ensures filteredItems == items
    {
      filteredItems := items;
      SubsequenceRefl(items);
    }

    /**
     * Keyboard routing: ArrowDown and ArrowUp move the selection and
     * request a scroll, Space opens, Enter and Esc close; any other key
     * code leaves the component untouched.
     */
    method HandleKeyDown(which: int)
      requires Valid()
      modifies this`isOpen, this`selectedItem, this`selectedItemIndex, this`notified, this`scrollRequests
      ensures Valid()
      ensures KeyOf(which) == None ==> unchanged(this)
      ensures KeyOf(which) == Some(ArrowDown) ==>
        && selectedItemIndex == NextIndex(old(selectedItemIndex), |filteredItems|)
        && selectedItem == At(filteredItems, selectedItemIndex)
        && notified == old(notified) + [ChangeOf(bindValue, selectedItem)]
        && scrollRequests == old(scrollRequests) + 1
        && isOpen == old(isOpen)
        && (selectedItem.Some? ==> selectedItem.value in items)
      ensures KeyOf(which) == Some(ArrowUp) ==>
        && selectedItemIndex == PrevIndex(old(selectedItemIndex), |filteredItems|)
        && selectedItem == At(filteredItems, selectedItemIndex)
        && notified == old(notified) + [ChangeOf(bindValue, selectedItem)]
        && scrollRequests == old(scrollRequests) + 1
        && isOpen == old(isOpen)
        && (selectedItem.Some? ==> selectedItem.value in items)
      ensures KeyOf(which) == Some(Space) ==>
        && isOpen
        && scrollRequests == old(scrollRequests) + 1
        && selectedItem == old(selectedItem) && selectedItemIndex == old(selectedItemIndex)
        && notified == old(notified)
      ensures KeyOf(which) == Some(Enter) || KeyOf(which) == Some(Esc) ==>
        && !isOpen
        && scrollRequests == old(scrollRequests)
        && selectedItem == old(selectedItem) && selectedItemIndex == old(selectedItemIndex)
        && notified == old(notified)
    {
      var key := KeyOf(which);
      if key.Some? {
        match key.value
        case ArrowDown =>
          SelectNextItem();
          ScrollToSelected();
        case ArrowUp =>
          SelectPreviousItem();
          ScrollToSelected();
        case Space =>
          Open();
        case Enter =>
          Close();
        case Esc =>
          Close();
      }
    }

    /** Losing focus closes the list. */
    method HandleBlur()
      modifies this`isOpen
      ensures !isOpen
    {
      Close();
    }

    /**
     * Clearing is a no-op unless `allowClear`; otherwise it drops the
     * selection and reports null.
     */
    method Clear()
      modifies this`selectedItem, this`selectedItemIndex, this`notified
      ensures !allowClear ==> unchanged(this)
      ensures allowClear ==>
        && selectedItem == None
        && selectedItemIndex == -1
        && notified == old(notified) + [NullValue]
    {
      if !allowClear {
        return;
      }
      selectedItem := None;
      selectedItemIndex := -1;
      NotifyModelChanged(None);
    }

    /**
     * An external write always stores the value; a non-null value also
     * resolves the index in `items` (not in the filtered list), -1 when
     * no item matches. A null write keeps the old index.
     */
    method WriteValue(obj: Option<T>)
      modifies this`selectedItem, this`selectedItemIndex
      ensures selectedItem == obj
      ensures obj.Some? ==> selectedItemIndex == ResolveIndex(items, bindValue, obj.value)
      ensures obj.Some? && obj.value in items ==> 0 <= selectedItemIndex < |items|
      ensures obj.Some? && selectedItemIndex >= 0 ==>
        ChangeOf(bindValue, Some(items[selectedItemIndex])) == ChangeOf(bindValue, obj)
      ensures obj.None? ==> selectedItemIndex == old(selectedItemIndex)
    {
      selectedItem := obj;
      if obj.Some? {
        selectedItemIndex := ResolveIndex(items, bindValue, obj.value);
        if obj.value in items {
          ResolveIndexFound(items, bindValue, obj.value);
        }
      }
    }

    /** Opening shows the list and requests a scroll to the selection. */
    method Open()
      modifies this`isOpen, this`scrollRequests
      ensures isOpen
      ensures scrollRequests == old(scrollRequests) + 1
    {
      isOpen := true;
      ScrollToSelected();
    }

    /** Toggling flips the open flag and requests a scroll only when it opens. */
    method Toggle()
      modifies this`isOpen, this`scrollRequests
      ensures isOpen == !old(isOpen)
      ensures scrollRequests == old(scrollRequests) + (if isOpen then 1 else 0)
    {
      isOpen := !isOpen;
      if isOpen {
        ScrollToSelected();
      }
    }

    /** `getTextValue`: the display text of the selection, empty when there is none. */
    function GetTextValue(): (r: string)
      reads this`selectedItem
      ensures selectedItem.Some? ==> r == text(selectedItem.value)
      ensures selectedItem.None? ==> r == []
    {
      match selectedItem
      case None => []
      case Some(x) => text(x)
    }

    /**
     * Choosing an item directly stores it, reports it and closes the
     * list; the selected index is left as it was.
     */
    method Select(item: Option<T>)
      modifies this`selectedItem, this`notified, this`isOpen
      ensures selectedItem == item
      ensures item.Some? ==> GetTextValue() == text(item.value)
      ensures notified == old(notified) + [ChangeOf(bindValue, item)]
      ensures !isOpen
      ensures selectedItemIndex == old(selectedItemIndex)
    {
      selectedItem := item;
      NotifyModelChanged(item);
      Close();
    }

    /**
     * A search stores the term and recomputes the filtered list from all
     * items. A non-empty term resets an index above -1 to -1; an empty
     * term, or an index already at or below -1, keeps the index.
     */
    method OnSearch(term: string)
      requires Valid()
      modifies this`searchValue, this`filteredItems, this`selectedItemIndex
      ensures Valid()
      ensures searchValue == Some(term)
      ensures filteredItems == Search(items, text, norm, term)
      ensures term == [] ==> filteredItems == items
      ensures term != [] && old(selectedItemIndex) > -1 ==> selectedItemIndex == -1
      ensures term == [] || old(selectedItemIndex) <= -1 ==> selectedItemIndex == old(selectedItemIndex)
    {
      searchValue := Some(term);
      filteredItems := Search(items, text, norm, term);
      if term != [] && selectedItemIndex > -1 {
        selectedItemIndex := -1;
      }
    }

    method Close()
      modifies this`isOpen
      ensures !isOpen
    {
      isOpen := false;
    }

    /** The view-layer scroll is deferred and has no state effect; only the request is recorded. */
    method ScrollToSelected()
      modifies this`scrollRequests
      ensures scrollRequests == old(scrollRequests) + 1
    {
      scrollRequests := scrollRequests + 1;
    }

    /**
     * ArrowDown: wrap from the last index to 0, otherwise step forward;
     * then select whatever sits at the new index (nothing when it is out
     * of range) and report it.
     */
    method SelectNextItem()
      requires Valid()
      modifies this`selectedItemIndex, this`selectedItem, this`notified
      ensures selectedItemIndex == NextIndex(old(selectedItemIndex), |filteredItems|)
      ensures selectedItem == At(filteredItems, selectedItemIndex)
      ensures notified == old(notified) + [ChangeOf(bindValue, selectedItem)]
      ensures |filteredItems| > 0 && -1 <= old(selectedItemIndex) < |filteredItems| ==>
        0 <= selectedItemIndex < |filteredItems| && selectedItem == Some(filteredItems[selectedItemIndex])
      ensures selectedItem.Some? ==> selectedItem.value in items
    {
      if selectedItemIndex == |filteredItems| - 1 {
        selectedItemIndex := 0;
      } else {
        selectedItemIndex := selectedItemIndex + 1;
      }
      selectedItem := At(filteredItems, selectedItemIndex);
      SubsequenceMembers(filteredItems, items);
      NotifyModelChanged(selectedItem);
    }

    /**
     * ArrowUp: wrap from 0 to the last index, otherwise step back; then
     * select whatever sits at the new index and report it.
     */
    method SelectPreviousItem()
      requires Valid()
      modifies this`selectedItemIndex, this`selectedItem, this`notified
      ensures selectedItemIndex == PrevIndex(old(selectedItemIndex), |filteredItems|)
      ensures selectedItem == At(filteredItems, selectedItemIndex)
      ensures notified == old(notified) + [ChangeOf(bindValue, selectedItem)]
      ensures 0 <= old(selectedItemIndex) < |filteredItems| ==>
        0 <= selectedItemIndex < |filteredItems| && selectedItem == Some(filteredItems[selectedItemIndex])
      ensures selectedItem.Some? ==> selectedItem.value in items
    {
      if selectedItemIndex == 0 {
        selectedItemIndex := |filteredItems| - 1;
      } else {
        selectedItemIndex := selectedItemIndex - 1;
      }
      selectedItem := At(filteredItems, selectedItemIndex);
      SubsequenceMembers(filteredItems, items);
      NotifyModelChanged(selectedItem);
    }

    /** Hands the payload for `v` to the value-change callback. */
    method NotifyModelChanged(v: Option<T>)
      modifies this`notified
      ensures notified == old(notified) + [ChangeOf(bindValue, v)]
    {
      notified := notified + [ChangeOf(bindValue, v)];
    }
  }
}
