# ang-select interaction model

A Dafny model of `AngSelectComponent`. It is a searchable dropdown that can be driven from the keyboard. The component is a small state machine over five fields: `isOpen`, `selectedItem`, `selectedItemIndex`, `filteredItems` and `searchValue`. The model has three modules:

- `Wrappers` (`wrappers.dfy`): `Option`. `None` stands for JavaScript `null` and `undefined`.
- `AngSelectLogic` (`ang_select_logic.dfy`): the expression-only parts of the component. These are the `Key` enumeration and its reverse lookup, `String.indexOf` and the prefix filter built on it, `Array.filter`, the index lookup (`findIndex` or `indexOf`), the payload chosen by `notifyModelChanged`, `getTextValue`, and the wrap-around index arithmetic of keyboard navigation. Each comes with lemmas.
- `AngSelect` (`ang_select.dfy`): the class `AngSelectComponent`. Its methods update the state fields in place, with `modifies` frames that name single fields. Each method's `ensures` gives the whole new state in terms of the old one and the functions above. `Valid()` says the filtered list is an order-preserving subsequence of `items`, and every method keeps it true.

The untyped items and string-keyed field access of the component become a generic item type `T` plus functions supplied by the caller:
- `text` replaces the `bindText` field.
- `bindValue` becomes an `Option` of a key function `T -> K`.
- `norm` stands for `stripSpecialChars(..).toUpperCase()`. It stays uninterpreted and is supplied with the inputs.

Two things are recorded in ghost fields:
- The values passed to the value-change callback are kept as the ghost log `notified`.
- Each deferred scroll-to-selected request increments the ghost counter `scrollRequests`.

Reading a list position out of range gives `undefined` in JavaScript. The model gives `None` there (`At`), so the quirks of the code need no preconditions:
- ArrowUp from index -1 moves to -2 and selects nothing, and repeated presses keep going down (-3, …).
- ArrowDown on an empty filtered list moves -1 to 0, which is past the end, so it selects nothing.
- `select` leaves `selectedItemIndex` as it was.
- `onSearch` resets the index only for a non-empty term, and only when the index is above -1. An index of -2 survives a search.

The code does not keep the selected index at -1 or inside the filtered list:
- ArrowUp from -1 gives -2, and further presses keep going down.
- `writeValue` resolves the index against `items`, not against the filtered list.

## Model

| member | source | states |
|---|---|---|
| `AngSelectLogic.KeyOf` | src/lib/src/ang-select/ang-select.component.ts:34-40 | `Key[which]` is defined exactly for the codes 13, 27, 32, 38 and 40, and the key it gives has that code |
| `AngSelectLogic.KeyOfCode` | src/lib/src/ang-select/ang-select.component.ts:34-40 | looking a key up by its own code gives that key back |
| `AngSelectLogic.IndexOfFrom` | src/lib/src/ang-select/ang-select.component.ts:189-191 | `indexOf` gives the first position at or after the start where the term occurs, or -1 when it occurs nowhere there |
| `AngSelectLogic.StrIndexOf` | src/lib/src/ang-select/ang-select.component.ts:189-191 | `indexOf(p) === 0` holds exactly when `p` is a prefix of the string, which makes the filter predicate `PrefixMatch` (:188-192) a prefix test |
| `AngSelectLogic.Filter` | src/lib/src/ang-select/ang-select.component.ts:194 | `items.filter` returns only elements that pass, contains every element that passes, takes no more copies of any value than the input has, and is an order-preserving subsequence |
| `AngSelectLogic.FilterMultiplicity` | src/lib/src/ang-select/ang-select.component.ts:194 | every copy of a passing value is kept, and no copy of a failing one |
| `AngSelectLogic.FilterConcat` | src/lib/src/ang-select/ang-select.component.ts:194 | filtering distributes over concatenation, so the original order is kept |
| `AngSelectLogic.FilterAll` | src/lib/src/ang-select/ang-select.component.ts:194 | a list whose elements all pass is returned unchanged |
| `AngSelectLogic.FilterIdempotent` | src/lib/src/ang-select/ang-select.component.ts:194 | filtering twice with the same predicate equals filtering once |
| `AngSelectLogic.Search` | src/lib/src/ang-select/ang-select.component.ts:185-194 | the empty term shows all items; a non-empty term shows, in order, exactly the items whose normalised text starts with the normalised term |
| `AngSelectLogic.SearchMultiplicity` | src/lib/src/ang-select/ang-select.component.ts:188-194 | with a non-empty term, each value appears as often as in `items` when its normalised text starts with the normalised term, and not at all otherwise |
| `AngSelectLogic.SearchIdempotent` | src/lib/src/ang-select/ang-select.component.ts:185-194 | searching the result of a search again with the same term changes nothing |
| `AngSelectLogic.SearchBlankTerm` | src/lib/src/ang-select/ang-select.component.ts:188-194 | a term that normalises to the empty string filters nothing out |
| `AngSelectLogic.FindIndex` | src/lib/src/ang-select/ang-select.component.ts:126 | `findIndex` gives the first position that satisfies the predicate, or -1 when none does |
| `AngSelectLogic.ResolveIndex` | src/lib/src/ang-select/ang-select.component.ts:124-129 | the index `writeValue` looks up is the first item with the same bound key (when `bindValue` is set) or the same item (otherwise), or -1 |
| `AngSelectLogic.ResolveIndexFound` | src/lib/src/ang-select/ang-select.component.ts:126-128 | a value that is one of the items is always found |
| `AngSelectLogic.ChangeOf` | src/lib/src/ang-select/ang-select.component.ts:238-246 | the payload is null exactly for a null value; for a non-null value it is `key(v)` when `bindValue` is set and `v` itself otherwise |
| `AngSelectLogic.ChangeOfUnboundInjective` | src/lib/src/ang-select/ang-select.component.ts:243-244 | without `bindValue`, the payload determines the selection |
| `AngSelectLogic.ResolvedItemSameChange` | src/lib/src/ang-select/ang-select.component.ts:122-130 | the item at the index resolved for a written value produces the same payload as that value |
| `AngSelectLogic.NextIndexInRange` | src/lib/src/ang-select/ang-select.component.ts:218-222 | on a non-empty list, ArrowDown (`NextIndex`) from -1 or a valid index lands on a valid index |
| `AngSelectLogic.PrevIndexInRange` | src/lib/src/ang-select/ang-select.component.ts:229-233 | ArrowUp (`PrevIndex`) from a valid index lands on a valid index |
| `AngSelectLogic.PrevNextInverse` | src/lib/src/ang-select/ang-select.component.ts:216-233 | on valid indices, ArrowUp undoes ArrowDown and ArrowDown undoes ArrowUp |
| `AngSelectLogic.PrevFromNone` | src/lib/src/ang-select/ang-select.component.ts:229-234 | ArrowUp from -1 gives -2 on any list, even an empty one, and reading there (`At`) selects nothing |
| `AngSelectLogic.NextOnEmpty` | src/lib/src/ang-select/ang-select.component.ts:218-223 | ArrowDown on an empty list moves -1 to 0, which is past the end, so reading there (`At`) selects nothing |
| `AngSelectLogic.NextNAdd` | src/lib/src/ang-select/ang-select.component.ts:218-222 | pressing ArrowDown n + m times is pressing it n times and then m times |
| `AngSelectLogic.NextNCount` | src/lib/src/ang-select/ang-select.component.ts:218-222 | below the last index, each ArrowDown adds one |
| `AngSelectLogic.NextCycle` | src/lib/src/ang-select/ang-select.component.ts:218-222 | pressing ArrowDown as many times as the list is long returns to the starting index |
| `AngSelectLogic.SubsequenceMembers` | src/lib/src/ang-select/ang-select.component.ts:194 | a filtered view is no longer than `items` and holds only items, so navigation can only select an item |
| `AngSelectLogic.SubsequenceRefl` | src/lib/src/ang-select/ang-select.component.ts:82 | the full item list is a subsequence of itself, so the initial filtered view is valid |
| `AngSelect.AngSelectComponent.constructor` | src/lib/src/ang-select/ang-select.component.ts:61-74 | initial state: closed, nothing selected, index -1, no search term, empty filtered list, nothing notified |
| `AngSelect.AngSelectComponent.NgOnInit` | src/lib/src/ang-select/ang-select.component.ts:81-83 | the filtered list becomes all items |
| `AngSelect.AngSelectComponent.HandleKeyDown` | src/lib/src/ang-select/ang-select.component.ts:85-107 | ArrowDown and ArrowUp navigate, report and request a scroll; Space opens; Enter and Esc close; any other code changes nothing; an item selected by navigation is one of `items` |
| `AngSelect.AngSelectComponent.HandleBlur` | src/lib/src/ang-select/ang-select.component.ts:109-111 | blur leaves the list closed |
| `AngSelect.AngSelectComponent.Clear` | src/lib/src/ang-select/ang-select.component.ts:113-120 | without `allowClear` nothing changes and nothing is reported; with it the selection becomes null, the index -1, and null is reported |
| `AngSelect.AngSelectComponent.WriteValue` | src/lib/src/ang-select/ang-select.component.ts:122-132 | the value is always stored; a non-null value sets the index to its resolved position in `items` (valid whenever the value is an item); null keeps the index |
| `AngSelect.AngSelectComponent.Open` | src/lib/src/ang-select/ang-select.component.ts:144-147 | the list is open and one scroll is requested |
| `AngSelect.AngSelectComponent.Toggle` | src/lib/src/ang-select/ang-select.component.ts:149-154 | the open flag is negated, and a scroll is requested exactly when it opens |
| `AngSelect.AngSelectComponent.GetTextValue` | src/lib/src/ang-select/ang-select.component.ts:156-158 | the display text of the selection, or the empty string when nothing is selected |
| `AngSelect.AngSelectComponent.Select` | src/lib/src/ang-select/ang-select.component.ts:175-179 | the item is stored and reported, its text becomes the display text, the list is closed, and the index is not updated |
| `AngSelect.AngSelectComponent.OnSearch` | src/lib/src/ang-select/ang-select.component.ts:185-199 | stores the term, recomputes the filtered list from all items, and resets an index above -1 only for a non-empty term; the selection and open flag are untouched |
| `AngSelect.AngSelectComponent.Close` | src/lib/src/ang-select/ang-select.component.ts:201-203 | the list is closed |
| `AngSelect.AngSelectComponent.ScrollToSelected` | src/lib/src/ang-select/ang-select.component.ts:205-214 | one deferred scroll request is recorded; nothing else changes |
| `AngSelect.AngSelectComponent.SelectNextItem` | src/lib/src/ang-select/ang-select.component.ts:216-226 | the index moves by wrap-around ArrowDown, the selection becomes the item there (none when out of range), and exactly that payload is reported; from -1 or a valid index on a non-empty list the result is a valid index; a selected item is one of `items` |
| `AngSelect.AngSelectComponent.SelectPreviousItem` | src/lib/src/ang-select/ang-select.component.ts:228-236 | the index moves by wrap-around ArrowUp, the selection becomes the item there (none when out of range), and exactly that payload is reported; from a valid index the result is a valid index; a selected item is one of `items` |
| `AngSelect.AngSelectComponent.NotifyModelChanged` | src/lib/src/ang-select/ang-select.component.ts:238-246 | exactly one payload, chosen by `ChangeOf`, is appended to the notification log |

## Left out

- Angular machinery is not modelled: decorators, template references, value-accessor registration, `changeDetectorRef.detectChanges()`, and `event.preventDefault()`.
- `registerOnChange` is not modelled as a method. The registered callback is represented only by the log of values passed to it.
- `registerOnTouched` and `setDisabledState` are empty in the component, so they are not modelled.
- `getDisplayTemplateContext`, `getOptionTemplateContext` and `showPlaceholder` build rendering data only, so they are not modelled.
- `ScrollToSelected`: the deferred timer, the DOM query and `scrollToElement` are view side effects. Only the request is counted.
- `norm` stays uninterpreted. The search-helper module, which holds `stripSpecialChars`, and Unicode upper-casing are not part of this model.
- `console.log` calls are not modelled.
- The inputs (`items`, `bindText`, `bindValue`, `allowClear`) are fixed at construction. The model does not capture later reassignment by the host.
- `allowSearch`, `placeholder`, the `blur` output and the unused `showSearch` flag have no effect on the modelled state.
- JavaScript truthiness is modelled for null and the empty search term only. The code's `if (obj)` and `!selectedValue` would also treat `0`, `false` or `""` as null, and the model does not capture that.
- `AngSelect.AngSelectComponent.WriteValue` takes an item. A caller that hands back the primitive key emitted under `bindValue` is not modelled.
