# Celebrity manager: list controller and card state machine in Dafny

This project models the view-state logic of a small client-side app for browsing,
searching, editing and deleting celebrity profiles, and proves properties about it.
There are two components:

- **The list controller** (`src/components/CelebrityList.tsx`). It owns:
  - the record collection;
  - the search term;
  - the one expanded id.

  From these it derives the displayed order: the records whose `"first last"` name
  includes the term (ignoring case) come first, then all the others. It also applies
  the three requests a card can hand up: toggle, delete and edit.
- **The record card** (`src/components/CelebrityCard.tsx`). It owns:
  - edit mode;
  - draft gender, country and description;
  - the dirty flag (`isChanged`) and the validity flag (`isValid`);
  - the delete-dialog flag.

  It is modelled as a transition function from (props, state, user event) to a new
  state plus the callback the event invoked, if any.

Everything is immutable data and pure functions. The modules are:

| file | module | contents |
|---|---|---|
| `wrappers.dfy` | `Wrappers` | `Option` |
| `text.dfy` | `Text` | the JavaScript whitespace class; ASCII lowercasing; `includes`; `trim`; the country pattern `^[a-zA-Z\s]*$` |
| `seqs.dfy` | `Seqs` | order-preserving selection (`filter`) and the stable partition built from two complementary filters |
| `celebrity_types.dfy` | `CelebrityTypes` | the `Celebrity` record; object spread (`{ ...a, ...b }`) as a `Patch`; the card callbacks as `UpCall` |
| `celebrity_list.dfy` | `CelebrityList` | search ordering, toggle, delete, edit; the controller state and its events |
| `celebrity_card.dfy` | `CelebrityCard` | card state, handlers, which controls the render offers (`Offered`), `Step`, `Run` over event sequences |
| `celebrity_list_cards.dfy` | `CelebrityListCards` | the render loop's wiring: a card event and the list's response to its callback |

Two behaviours of the card are modelled as written:

- **The dirty flag lags one keystroke.** Each input's `onChange` calls a draft setter
  and then `handleInputChange`. That function reads the drafts of the render the event
  came from, so `isChanged` is set from the drafts as they were *before* the keystroke
  (`CelebrityCard.ChangeDrafts`). As a result, the first keystroke made on clean drafts
  leaves `isChanged` false, whatever it was before (`CelebrityCard.FirstKeystrokeIsMissed`).
- **A card collapsed during an edit is stuck.** Clicking another card's header expands
  that card and so collapses the one being edited. The edited card's own header click
  is suppressed while it is editing, and its Save and Cancel buttons are rendered only
  while it is expanded. From then on, none of its events has any effect
  (`CelebrityCard.CollapsedEditorIsStuck`, with `CelebrityListCards.HeaderClickFlipsOwnCard`
  for the collapse).
- **`isChanged` is never reset by save or cancel.** A card that was saved once can be
  re-opened and saved again straight away, and it then sends up the unchanged record
  (`CelebrityCard.ResaveAfterSave`).

Other behaviours of the code worth noting:

- In display mode, Delete is offered only for an adult, like Edit. Both buttons sit inside
  one `isAdult` block (`CelebrityCard.tsx:165-180`).
- The Save button is disabled only when `!isChanged || !isValid` (`CelebrityCard.tsx:139-141`).
  `handleSave` checks the age itself (`CelebrityCard.tsx:42`), so a save takes effect
  only when all three conditions hold.
- A successful save leaves the drafts in place (`CelebrityCard.tsx:41-47`). They stay
  equal to the record that was sent up (`CelebrityCard.StepKeepsIdleDrafts`).
- `handleDelete` and `handleEdit` act on *every* record that carries the id
  (`CelebrityList.tsx:40-50`). They touch exactly one record only while ids are unique.
  The model states that condition as the `UniqueIds` precondition.
- A description is valid when it is non-empty after trimming whitespace
  (`CelebrityCard.tsx:25`).

Whitespace (`Text.IsWhitespace`) is the ECMAScript WhiteSpace and LineTerminator set,
written out by code point. The regular-expression class `\s` and `trim` both use this
set.

`isValid` starts as `true` in the source. The validation effect overwrites it when the
card mounts, so `InitCard` already holds the validity of the committed values. After
every draft change the model recomputes validity in the same step instead of in a
later effect. `CelebrityCard.StepKeepsValidityCurrent` proves that `isValid` always
matches the drafts.

## Model

| member | source | states |
|---|---|---|
| Text.ContainsIffOccurs | src/components/CelebrityList.tsx:24-28 | the scanning `includes` holds exactly when some window of the name equals the term |
| Text.HasContent | src/components/CelebrityCard.tsx:25 | `trim() !== ""` holds exactly when some character is outside the whitespace class |
| Text.MatchesCountryPattern | src/components/CelebrityCard.tsx:24 | `^[a-zA-Z\s]*$` accepts exactly the strings whose every character is an ASCII letter or whitespace, the empty string included |
| Text.TrimStart | src/components/CelebrityCard.tsx:25 | the result is a suffix of the input, starts with a non-whitespace character or is empty, and everything dropped was whitespace |
| Text.TrimEnd | src/components/CelebrityCard.tsx:25 | the result is a prefix of the input, ends with a non-whitespace character or is empty, and everything dropped was whitespace |
| Seqs.PartitionUnique | src/components/CelebrityList.tsx:30-38 | any sequence that puts the selected elements first and keeps both classes in input order equals the partition |
| CelebrityList.SortedCelebrities | src/components/CelebrityList.tsx:24-38 | the displayed order is a permutation of the collection; every matching record precedes every non-matching one; each group keeps its collection order |
| CelebrityList.SortedIsTheStablePartition | src/components/CelebrityList.tsx:30-38 | those three properties determine the displayed order uniquely |
| CelebrityList.EmptySearchKeepsOrder | src/components/CelebrityList.tsx:24-28 | an empty term matches every record, so the displayed order is the collection order |
| CelebrityList.SearchIgnoresCase | src/components/CelebrityList.tsx:24-37 | two terms that lowercase alike give the same displayed order |
| CelebrityList.SearchLowercasedTerm | src/components/CelebrityList.tsx:24-37 | searching for the lowercased term gives the same displayed order as searching for the term as typed |
| CelebrityList.SortedKeepsUniqueIds | src/components/CelebrityList.tsx:30-38 | reordering never shows two cards with one id if the collection has no such pair |
| CelebrityList.ToggleAccordion | src/components/CelebrityList.tsx:20-22 | the result is "none" exactly when the clicked id was the expanded one; otherwise it is exactly the clicked id |
| CelebrityList.ToggleTwiceRestores | src/components/CelebrityList.tsx:20-22 | starting from no card expanded or from this card expanded, two clicks on its header return to the starting expansion |
| CelebrityList.DeleteById | src/components/CelebrityList.tsx:40-42 | a record survives exactly when its id differs from the argument, and surviving records keep their multiplicity |
| CelebrityList.DeleteDistributes | src/components/CelebrityList.tsx:40-42 | deleting from a concatenation is deleting from each part, so survivors keep their relative order for any ids |
| CelebrityList.DeleteAbsentIsNoop | src/components/CelebrityList.tsx:40-42 | deleting an id no record carries leaves the collection unchanged |
| CelebrityList.DeleteRemovesExactlyOne | src/components/CelebrityList.tsx:40-42 | with unique ids, deleting the id at position k yields the collection without position k, in order, one shorter |
| CelebrityList.EditById | src/components/CelebrityList.tsx:44-50 | length is preserved; records carrying the id become the update (a full record spread over the old one); all others are unchanged |
| CelebrityList.EditAbsentIsNoop | src/components/CelebrityList.tsx:44-50 | editing an id no record carries leaves the collection unchanged |
| CelebrityList.EditIdempotent | src/components/CelebrityList.tsx:44-50 | applying the same edit twice equals applying it once |
| CelebrityList.EditKeepsUniqueIds | src/components/CelebrityList.tsx:44-50 | an edit whose record keeps the id keeps ids unique |
| CelebrityList.SearchLeavesCollection | src/components/CelebrityList.tsx:16-18 | a search keeps the collection and the expanded id, and the screen still shows a permutation of the collection |
| CelebrityList.InitialList | src/components/CelebrityList.tsx:6-8 | the controller starts with an empty collection (ids trivially unique), an empty search box, nothing expanded and nothing displayed |
| CelebrityList.ListStepKeepsUniqueIds | src/components/CelebrityList.tsx:6-50 | every controller update keeps ids unique, given unique loaded data and id-preserving edits |
| CelebrityList.AtMostOneExpanded | src/components/CelebrityList.tsx:101 | with unique ids, at most one displayed card has `isExpanded` |
| CelebrityTypes.SpreadFullRecord | src/components/CelebrityList.tsx:47 | spreading a complete record over any record gives that complete record |
| CelebrityTypes.SpreadEditable | src/components/CelebrityCard.tsx:43 | spreading the three drafts replaces gender, country and description and keeps id, names, birth date and picture |
| CelebrityCard.Validate | src/components/CelebrityCard.tsx:23-27 | valid exactly when the country has only ASCII letters and whitespace (empty allowed) and the description has a non-whitespace character |
| CelebrityCard.InitCard | src/components/CelebrityCard.tsx:12-18 | a mounted card is in display mode with the record's values as drafts, not dirty, dialog closed, validity current |
| CelebrityCard.HeaderClickGuard | src/components/CelebrityCard.tsx:69 | a header click requests a toggle exactly when the card is not editing, and changes no local state |
| CelebrityCard.DisplayActionsAdultOnly | src/components/CelebrityCard.tsx:165-180 | Edit and Delete are offered exactly for an expanded card in display mode whose age is at least 18; elsewhere they do nothing |
| CelebrityCard.SaveGate | src/components/CelebrityCard.tsx:41-47 | a save sends `onEdit` exactly when the card is expanded, editing, adult, changed and valid; it then sends the card's id and the record with only gender, country and description replaced, and leaves edit mode; otherwise nothing changes |
| CelebrityCard.CancelRestores | src/components/CelebrityCard.tsx:49-54 | cancel restores all three drafts, leaves edit mode, invokes nothing, and keeps the dirty and dialog flags |
| CelebrityCard.DeleteIsTwoStep | src/components/CelebrityCard.tsx:56-62 | opening only raises the dialog flag; confirming sends `onDelete` with the card's id and lowers it; closing lowers it and invokes nothing; with the dialog closed neither does anything |
| CelebrityCard.OnlyConfirmationDeletes | src/components/CelebrityCard.tsx:186-210 | the only event that sends `onDelete` is a confirmation in the open dialog, and it names the card's own id |
| CelebrityCard.FieldChangeReadsStaleDrafts | src/components/CelebrityCard.tsx:33-39 | a field change stores the new draft and recomputes validity; the dirty flag becomes whether the pre-keystroke drafts differed from the record |
| CelebrityCard.DirtyFlagOnlyMovesOnFieldChange | src/components/CelebrityCard.tsx:41-62 | no event other than a field change, save and cancel included, alters `isChanged` |
| CelebrityCard.FirstKeystrokeIsMissed | src/components/CelebrityCard.tsx:110-113 | from clean drafts, whatever `isChanged` was, a country keystroke that makes the drafts differ leaves `isChanged` false, and Save then does nothing |
| CelebrityCard.ResaveAfterSave | src/components/CelebrityCard.tsx:41-47 | after a save, with the list passing the saved record back, re-entering edit mode and saving again at once sends the unchanged record up |
| CelebrityCard.StepKeepsValidityCurrent | src/components/CelebrityCard.tsx:29-31 | after every event `isValid` equals the validity of the current drafts |
| CelebrityCard.RunKeepsValidityCurrent | src/components/CelebrityCard.tsx:29-31 | the same holds after any sequence of events |
| CelebrityCard.StepKeepsIdleDrafts | src/components/CelebrityCard.tsx:49-54 | outside edit mode the drafts equal the committed record; after a successful save they equal the record sent up |
| CelebrityCard.MinorCardOnlyToggles | src/components/CelebrityCard.tsx:165-180 | a minor's card starting in display mode with the dialog closed never edits, never opens the dialog, and only ever requests toggles |
| CelebrityCard.CollapsedEditorIsStuck | src/components/CelebrityCard.tsx:69-83 | a card collapsed while editing, with the dialog closed, stays exactly as it is and invokes nothing under any sequence of its own events |
| CelebrityCard.OnlySaveAndConfirmMutate | src/components/CelebrityCard.tsx:41-62 | without a save or a delete confirmation, a card invokes nothing but toggles |
| CelebrityListCards.PropsFor | src/components/CelebrityList.tsx:99-105 | a card is rendered expanded exactly when its id is the expanded id |
| CelebrityListCards.SaveUpdatesOneRecord | src/components/CelebrityList.tsx:44-50 | a successful save on the card at position k replaces exactly that record by the edited one; length, unique ids, search term and expansion are kept |
| CelebrityListCards.ConfirmRemovesOneRecord | src/components/CelebrityList.tsx:40-42 | confirming deletion on the card at position k removes exactly that position |
| CelebrityListCards.HeaderClickFlipsOwnCard | src/components/CelebrityList.tsx:99-105 | a header click outside edit mode flips that card's expansion, leaves every other card collapsed, and keeps the collection |
| CelebrityListCards.NonCommittingEventKeepsCollection | src/components/CelebrityList.tsx:99-105 | any card event other than save or confirm, cancel included, leaves the collection and search term unchanged |

## Left out

- The initial `fetch("./celebrity.json")` is asynchronous I/O, so the model does not perform it. Its outcome is the `Loaded(data)` event, and a failed load, which would leave the list empty, is not modelled.
- `calculateAge` (`src/utils/calculateAge`) is not part of this model. The card's age is a prop, `CardProps.age`, and the model does not parse the date of birth or read the clock.
- Text.Lower: lowercases ASCII letters only. JavaScript's `toLowerCase` is full Unicode case mapping.
- Strings are sequences of Unicode scalar values, not UTF-16 code units, so lone surrogates cannot be represented.
- React scheduling is not modelled: state batching, `useEffect` and `useCallback` timing, and re-renders. Validity is recomputed within the same step as the draft change.
- CelebrityCard.Run: keeps the props fixed across the sequence. The list may pass a different `isExpanded` or record between two events. Single-event lemmas in `CelebrityListCards` cover the response to each callback.
- Rendering, styling and the modal overlay's stacking are not modelled. In `Step`, a control that is not on screen (or is disabled) does nothing. All controls that are on screen are treated as reachable.
- The gender drop-down's five options are a UI constraint that no logic enforces, so drafts are arbitrary strings.
- `src/App.tsx` is only a mount shell. The `GenderOption` and `Props` interfaces are type declarations. `Props` appears as `CardProps` plus `UpCall`.
- Card instances are not composed into one global map of per-card states. The model does not unmount a card when its record is deleted; the source does.
- Ids are modelled as mathematical integers, not JavaScript numbers: no fractional ids and no `NaN`.
