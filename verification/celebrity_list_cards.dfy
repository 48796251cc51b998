/** The list's render loop: one card per displayed record, given the record,
    its expanded flag and callbacks, and the list's response to what a card
    hands up. */
module CelebrityListCards {
  import opened Wrappers
  import opened CelebrityTypes
  import opened CelebrityList
  import opened CelebrityCard

  /** The props the list renders for a record; `age` is the card's age
      computation for the record's date of birth. */
  function PropsFor(ls: ListState, c: Celebrity, age: int): (props: CardProps)
    ensures props.isExpanded <==> ls.expandedId == Some(c.id)
  {
    CardProps(c, IsExpanded(ls, c), age)
  }

  /** A card event as the whole screen sees it: the card steps, and the
      callback it invoked, if any, updates the list. */
  function CardEventInList(ls: ListState, c: Celebrity, age: int, s: CardState, ev: CardEvent): (ListState, CardState)
  {
    var t := Step(PropsFor(ls, c, age), s, ev);
    match t.call
    case None => (ls, t.next)
    case Some(call) => (Deliver(ls, c.id, call), t.next)
  }

  /** A successful save on the card of the record at position `k` replaces
      that record, and only it, by the edited record; the collection keeps its
      length and its unique ids, and the search and expansion stay. */
  lemma SaveUpdatesOneRecord(ls: ListState, k: int, age: int, s: CardState)
    requires UniqueIds(ls.celebrities)
    requires 0 <= k < |ls.celebrities|
    requires Step(PropsFor(ls, ls.celebrities[k], age), s, SaveClick).call.Some?
    ensures var c := ls.celebrities[k];
      var ls' := CardEventInList(ls, c, age, s, SaveClick).0;
      && |ls'.celebrities| == |ls.celebrities|
      && ls'.celebrities[k] == SavedRecord(c, s)
      && (forall i :: 0 <= i < |ls.celebrities| && i != k ==> ls'.celebrities[i] == ls.celebrities[i])
      && UniqueIds(ls'.celebrities)
      && ls'.searchTerm == ls.searchTerm && ls'.expandedId == ls.expandedId
  {
    var c := ls.celebrities[k];
    var props := PropsFor(ls, c, age);
    SaveGate(props, s);
    var u := SavedRecord(c, s);
    assert Step(props, s, SaveClick).call == Some(Edit(c.id, u));
    EditKeepsUniqueIds(ls.celebrities, c.id, u);
    assert forall i :: 0 <= i < |ls.celebrities| && i != k ==> ls.celebrities[i].id != c.id;
  }

  /** Confirming the delete dialog on the card of the record at position `k`
      removes exactly that record and keeps the rest in order. */
  lemma ConfirmRemovesOneRecord(ls: ListState, k: int, age: int, s: CardState)
    requires UniqueIds(ls.celebrities)
    requires 0 <= k < |ls.celebrities|
    requires s.isDeleteDialogOpen
    ensures var ls' := CardEventInList(ls, ls.celebrities[k], age, s, ConfirmDelete).0;
      && ls'.celebrities == ls.celebrities[..k] + ls.celebrities[k + 1..]
      && |ls'.celebrities| == |ls.celebrities| - 1
  {
    var c := ls.celebrities[k];
    DeleteIsTwoStep(PropsFor(ls, c, age), s);
    DeleteRemovesExactlyOne(ls.celebrities, c.id, k);
  }

  /** Clicking a card's header outside edit mode flips whether that card is
      expanded; every other card ends up collapsed. */
  lemma HeaderClickFlipsOwnCard(ls: ListState, c: Celebrity, age: int, s: CardState, other: Celebrity)
    requires !s.isEditing
    requires other.id != c.id
    ensures var ls' := CardEventInList(ls, c, age, s, HeaderClick).0;
      && (IsExpanded(ls', c) <==> !IsExpanded(ls, c))
      && !IsExpanded(ls', other)
      && ls'.celebrities == ls.celebrities
  {
    HeaderClickGuard(PropsFor(ls, c, age), s);
  }

  /** Cancel, and any other event that is neither a save nor a delete
      confirmation, leaves the collection exactly as it was. */
  lemma NonCommittingEventKeepsCollection(ls: ListState, c: Celebrity, age: int, s: CardState, ev: CardEvent)
    requires ev != SaveClick && ev != ConfirmDelete
    ensures CardEventInList(ls, c, age, s, ev).0.celebrities == ls.celebrities
    ensures CardEventInList(ls, c, age, s, ev).0.searchTerm == ls.searchTerm
  {
    OnlySaveAndConfirmMutate(PropsFor(ls, c, age), s, [ev]);
    var t := Step(PropsFor(ls, c, age), s, ev);
    assert t.call == None || t.call == Some(Toggle);
  }
}
