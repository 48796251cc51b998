/** One profile card: its local edit-form state, the handlers its buttons and
    inputs call, which of those controls the render offers, and the callback
    each event hands up to the list. */
module CelebrityCard {
  import opened Wrappers
  import opened Text
  import opened CelebrityTypes

  /** The age from which the edit and delete actions are shown and a save is
      accepted. */
  const AdultAge: int := 18

  /** What the list passes down. `age` stands for the value the card computes
      from the date of birth and the current date. */
  datatype CardProps = CardProps(celebrity: Celebrity, isExpanded: bool, age: int)

  predicate IsAdult(props: CardProps) {
    props.age >= AdultAge
  }

  /** The card's own state hooks. */
  datatype CardState = CardState(
    isEditing: bool,
    gender: string,
    country: string,
    description: string,
    isChanged: bool,
    isValid: bool,
    isDeleteDialogOpen: bool)

  /** `validateInput`: the country matches `^[a-zA-Z\s]*$` and the trimmed
      description is not empty. */
  function Validate(country: string, description: string): (b: bool)
    ensures b <==>
      && (forall i :: 0 <= i < |country| ==> IsAsciiLetter(country[i]) || IsWhitespace(country[i]))
      && (exists i :: 0 <= i < |description| && !IsWhitespace(description[i]))
  {
    MatchesCountryPattern(country) && HasContent(description)
  }

  /** Some draft differs from the committed record (the comparison
      `handleInputChange` makes). */
  predicate Dirty(c: Celebrity, s: CardState) {
    s.gender != c.gender || s.country != c.country || s.description != c.description
  }

  /** The drafts are the committed values. */
  predicate DraftsAre(c: Celebrity, s: CardState) {
    s.gender == c.gender && s.country == c.country && s.description == c.description
  }

  /** `isValid` agrees with the current drafts: the validation effect has run. */
  predicate ValidityCurrent(s: CardState) {
    s.isValid == Validate(s.country, s.description)
  }

  /** A freshly mounted card: display mode, drafts seeded from the record, not
      dirty, dialog closed, validity as the mount effect computes it. */
  function InitCard(c: Celebrity): (s: CardState)
    ensures !s.isEditing && !s.isChanged && !s.isDeleteDialogOpen
    ensures DraftsAre(c, s) && ValidityCurrent(s)
  {
    CardState(false, c.gender, c.country, c.description, false,
              Validate(c.country, c.description), false)
  }

  datatype CardEvent =
    | HeaderClick
    | EditClick
    | GenderChange(gender: string)
    | CountryChange(country: string)
    | DescriptionChange(description: string)
    | SaveClick
    | CancelClick
    | DeleteClick
    | ConfirmDelete
    | CloseDialog

  predicate IsFieldChange(ev: CardEvent) {
    ev.GenderChange? || ev.CountryChange? || ev.DescriptionChange?
  }

  /** The state after an event and the callback it invoked, if any. */
  datatype Transition = Transition(next: CardState, call: Option<UpCall>)

  /** A field's `onChange`: the setter stores the new draft, and
      `handleInputChange`, reading the drafts of the render the event came
      from, stores whether THOSE differed from the record. The validation
      effect then runs on the new drafts. */
  function ChangeDrafts(c: Celebrity, s: CardState, gender: string, country: string, description: string): CardState {
    s.(gender := gender, country := country, description := description,
       isChanged := Dirty(c, s), isValid := Validate(country, description))
  }

  /** The record `handleSave` sends up: `{ ...celebrity, gender, country, description }`. */
  function SavedRecord(c: Celebrity, s: CardState): Celebrity {
    Spread(c, EditablePatch(s.gender, s.country, s.description))
  }

  /** The handler an event runs, regardless of whether the render offers it. */
  function Handle(c: Celebrity, isAdult: bool, s: CardState, ev: CardEvent): Transition {
    match ev
    case HeaderClick =>
      if !s.isEditing then Transition(s, Some(Toggle)) else Transition(s, None)
    case EditClick =>
      Transition(s.(isEditing := true), None)
    case GenderChange(g) =>
      Transition(ChangeDrafts(c, s, g, s.country, s.description), None)
    case CountryChange(k) =>
      Transition(ChangeDrafts(c, s, s.gender, k, s.description), None)
    case DescriptionChange(d) =>
      Transition(ChangeDrafts(c, s, s.gender, s.country, d), None)
    case SaveClick =>
      if isAdult && s.isChanged && s.isValid then
        Transition(s.(isEditing := false), Some(Edit(c.id, SavedRecord(c, s))))
      else
        Transition(s, None)
    case CancelClick =>
      Transition(s.(gender := c.gender, country := c.country, description := c.description,
                    isEditing := false, isValid := Validate(c.country, c.description)), None)
    case DeleteClick =>
      Transition(s.(isDeleteDialogOpen := true), None)
    case ConfirmDelete =>
      Transition(s.(isDeleteDialogOpen := false), Some(Delete(c.id)))
    case CloseDialog =>
      Transition(s.(isDeleteDialogOpen := false), None)
  }

  /** Whether the render shows an enabled control for the event. */
  predicate Offered(props: CardProps, s: CardState, ev: CardEvent) {
    match ev
    case HeaderClick => true
    case EditClick => props.isExpanded && !s.isEditing && IsAdult(props)
    case DeleteClick => props.isExpanded && !s.isEditing && IsAdult(props)
    case GenderChange(_) => props.isExpanded && s.isEditing
    case CountryChange(_) => props.isExpanded && s.isEditing
    case DescriptionChange(_) => props.isExpanded && s.isEditing
    case CancelClick => props.isExpanded && s.isEditing
    case SaveClick => props.isExpanded && s.isEditing && s.isChanged && s.isValid
    case ConfirmDelete => s.isDeleteDialogOpen
    case CloseDialog => s.isDeleteDialogOpen
  }

  /** A user event: the handler runs when its control is on screen, and
      nothing happens otherwise. */
  function Step(props: CardProps, s: CardState, ev: CardEvent): Transition {
    if Offered(props, s, ev) then Handle(props.celebrity, IsAdult(props), s, ev)
    else Transition(s, None)
  }

  /** The final state and the callbacks invoked, in order, by a sequence of
      events under fixed props. */
  datatype Outcome = Outcome(final: CardState, calls: seq<UpCall>)

  function Run(props: CardProps, s: CardState, evs: seq<CardEvent>): Outcome
    decreases |evs|
  {
    if |evs| == 0 then Outcome(s, [])
    else
      var t := Step(props, s, evs[0]);
      var rest := Run(props, t.next, evs[1..]);
      Outcome(rest.final, (if t.call.Some? then [t.call.value] else []) + rest.calls)
  }

  // ---------------------------------------------------------------------
  // Properties of single events

  /** A header click asks the list to toggle exactly when the card is not in
      edit mode, and changes nothing locally. */
  lemma HeaderClickGuard(props: CardProps, s: CardState)
    ensures Step(props, s, HeaderClick).next == s
    ensures Step(props, s, HeaderClick).call == Some(Toggle) <==> !s.isEditing
    ensures Step(props, s, HeaderClick).call == None <==> s.isEditing
  {
  }

  /** Edit and Delete are on screen exactly for an expanded adult card in
      display mode; on any other card clicking them does nothing. */
  lemma DisplayActionsAdultOnly(props: CardProps, s: CardState, ev: CardEvent)
    requires ev == EditClick || ev == DeleteClick
    ensures Offered(props, s, ev) <==> props.isExpanded && !s.isEditing && props.age >= 18
    ensures !Offered(props, s, ev) ==> Step(props, s, ev) == Transition(s, None)
    ensures Offered(props, s, EditClick) ==>
      Step(props, s, EditClick) == Transition(s.(isEditing := true), None)
  {
  }

  /** Save: an upward edit happens exactly for an adult's expanded card in edit
      mode that is flagged changed and valid; it then leaves edit mode, sends
      the record with only the three drafts replaced, and keeps the flags.
      Otherwise nothing happens and the card stays as it is. */
  lemma SaveGate(props: CardProps, s: CardState)
    ensures var t := Step(props, s, SaveClick);
      t.call.Some? <==> props.isExpanded && s.isEditing && IsAdult(props) && s.isChanged && s.isValid
    ensures var t := Step(props, s, SaveClick);
      t.call.None? ==> t.next == s
    ensures var t := Step(props, s, SaveClick);
      t.call.Some? ==>
        && t.next == s.(isEditing := false)
        && t.call.value.Edit?
        && t.call.value.id == props.celebrity.id
        && t.call.value.updated.gender == s.gender
        && t.call.value.updated.country == s.country
        && t.call.value.updated.description == s.description
        && t.call.value.updated.id == props.celebrity.id
        && t.call.value.updated.first == props.celebrity.first
        && t.call.value.updated.last == props.celebrity.last
        && t.call.value.updated.dob == props.celebrity.dob
        && t.call.value.updated.picture == props.celebrity.picture
  {
    SpreadEditable(props.celebrity, s.gender, s.country, s.description);
  }

  /** Cancel restores the three drafts, leaves edit mode and invokes nothing;
      the dirty flag and the dialog flag are left as they were. */
  lemma CancelRestores(props: CardProps, s: CardState)
    requires props.isExpanded && s.isEditing
    ensures var t := Step(props, s, CancelClick);
      && t.call == None
      && !t.next.isEditing
      && DraftsAre(props.celebrity, t.next)
      && ValidityCurrent(t.next)
      && t.next.isChanged == s.isChanged
      && t.next.isDeleteDialogOpen == s.isDeleteDialogOpen
  {
  }

  /** Deletion takes two steps: opening the dialog only raises its flag;
      confirming invokes `onDelete` with the card's own id and lowers the
      flag; closing lowers the flag and invokes nothing. */
  lemma DeleteIsTwoStep(props: CardProps, s: CardState)
    ensures Offered(props, s, DeleteClick) ==>
      Step(props, s, DeleteClick) == Transition(s.(isDeleteDialogOpen := true), None)
    ensures s.isDeleteDialogOpen ==>
      Step(props, s, ConfirmDelete) == Transition(s.(isDeleteDialogOpen := false), Some(Delete(props.celebrity.id)))
    ensures s.isDeleteDialogOpen ==>
      Step(props, s, CloseDialog) == Transition(s.(isDeleteDialogOpen := false), None)
    ensures !s.isDeleteDialogOpen ==>
      Step(props, s, ConfirmDelete) == Transition(s, None) && Step(props, s, CloseDialog) == Transition(s, None)
  {
  }

  /** No event but a confirmation in the open dialog invokes `onDelete`, and
      it always names the card's own record. */
  lemma OnlyConfirmationDeletes(props: CardProps, s: CardState, ev: CardEvent)
    ensures var t := Step(props, s, ev);
      t.call.Some? && t.call.value.Delete? ==>
        ev == ConfirmDelete && s.isDeleteDialogOpen && t.call.value.id == props.celebrity.id
  {
  }

  /** A field change stores the new draft, invokes nothing, recomputes
      validity from the new drafts, and sets the dirty flag from the drafts as
      they were BEFORE the keystroke. */
  lemma FieldChangeReadsStaleDrafts(props: CardProps, s: CardState, ev: CardEvent)
    requires IsFieldChange(ev)
    requires props.isExpanded && s.isEditing
    ensures var t := Step(props, s, ev);
      && t.call == None
      && t.next.isChanged == Dirty(props.celebrity, s)
      && ValidityCurrent(t.next)
      && t.next.gender == (if ev.GenderChange? then ev.gender else s.gender)
      && t.next.country == (if ev.CountryChange? then ev.country else s.country)
      && t.next.description == (if ev.DescriptionChange? then ev.description else s.description)
      && t.next.isEditing && t.next.isDeleteDialogOpen == s.isDeleteDialogOpen
  {
  }

  /** The dirty flag moves only on field changes: save and cancel never reset
      it. */
  lemma DirtyFlagOnlyMovesOnFieldChange(props: CardProps, s: CardState, ev: CardEvent)
    requires !IsFieldChange(ev)
    ensures Step(props, s, ev).next.isChanged == s.isChanged
  {
  }

  /** A keystroke on clean drafts is not seen as a change: the drafts now
      differ from the record, yet the card is flagged unchanged (even if the
      flag was left true by an earlier save or cancel) and Save does nothing. */
  lemma FirstKeystrokeIsMissed(props: CardProps, s: CardState, country: string)
    requires props.isExpanded && s.isEditing
    requires DraftsAre(props.celebrity, s)
    requires country != props.celebrity.country
    ensures var t := Step(props, s, CountryChange(country));
      && Dirty(props.celebrity, t.next)
      && !t.next.isChanged
      && Step(props, t.next, SaveClick) == Transition(t.next, None)
  {
  }

  /** Because the dirty flag survives a save, an adult's card re-opened after
      a save (with the list now passing the saved record) can be saved again
      at once, sending up the unchanged record. */
  lemma ResaveAfterSave(props: CardProps, s: CardState)
    requires props.isExpanded && s.isEditing && IsAdult(props) && s.isChanged && s.isValid
    ensures var t := Step(props, s, SaveClick);
      var saved := t.call.value.updated;
      var props' := props.(celebrity := saved);
      var u := Step(props', t.next, EditClick).next;
      && DraftsAre(saved, u)
      && Step(props', u, SaveClick).call == Some(Edit(saved.id, saved))
  {
    var t := Step(props, s, SaveClick);
    SpreadEditable(props.celebrity, s.gender, s.country, s.description);
    var saved := t.call.value.updated;
    assert SavedRecord(saved, t.next) == saved;
  }

  // ---------------------------------------------------------------------
  // Invariants

  /** Every event keeps `isValid` in step with the drafts. */
  lemma StepKeepsValidityCurrent(props: CardProps, s: CardState, ev: CardEvent)
    requires ValidityCurrent(s)
    ensures ValidityCurrent(Step(props, s, ev).next)
  {
  }

  /** Outside edit mode the drafts are the committed record; a successful
      save leaves them equal to the record it sent up. */
  lemma StepKeepsIdleDrafts(props: CardProps, s: CardState, ev: CardEvent)
    requires !s.isEditing ==> DraftsAre(props.celebrity, s)
    ensures var t := Step(props, s, ev);
      t.call.Some? && t.call.value.Edit? ==>
        !t.next.isEditing && DraftsAre(t.call.value.updated, t.next)
    ensures var t := Step(props, s, ev);
      !(t.call.Some? && t.call.value.Edit?) ==>
        (!t.next.isEditing ==> DraftsAre(props.celebrity, t.next))
  {
    SpreadEditable(props.celebrity, s.gender, s.country, s.description);
  }

  lemma {:induction false} RunKeepsValidityCurrent(props: CardProps, s: CardState, evs: seq<CardEvent>)
    requires ValidityCurrent(s)
    ensures ValidityCurrent(Run(props, s, evs).final)
    decreases |evs|
  {
    if |evs| > 0 {
      StepKeepsValidityCurrent(props, s, evs[0]);
      RunKeepsValidityCurrent(props, Step(props, s, evs[0]).next, evs[1..]);
    }
  }

  /** A minor's card, starting in display mode with the dialog closed, never
      enters edit mode, never opens the dialog, and only ever asks for a
      toggle, whatever the user does. */
  lemma {:induction false} MinorCardOnlyToggles(props: CardProps, s: CardState, evs: seq<CardEvent>)
    requires !IsAdult(props)
    requires !s.isEditing && !s.isDeleteDialogOpen
    ensures !Run(props, s, evs).final.isEditing
    ensures !Run(props, s, evs).final.isDeleteDialogOpen
    ensures forall i :: 0 <= i < |Run(props, s, evs).calls| ==> Run(props, s, evs).calls[i] == Toggle
    decreases |evs|
  {
    if |evs| > 0 {
      var t := Step(props, s, evs[0]);
      assert t.next == s;
      assert t.call == None || t.call == Some(Toggle);
      MinorCardOnlyToggles(props, s, evs[1..]);
    }
  }

  /** Without a save click or a delete confirmation, a card only ever asks
      for toggles, so the list's collection is never touched. */
  lemma {:induction false} OnlySaveAndConfirmMutate(props: CardProps, s: CardState, evs: seq<CardEvent>)
    requires forall i :: 0 <= i < |evs| ==> evs[i] != SaveClick && evs[i] != ConfirmDelete
    ensures forall i :: 0 <= i < |Run(props, s, evs).calls| ==> Run(props, s, evs).calls[i] == Toggle
    decreases |evs|
  {
    if |evs| > 0 {
      var t := Step(props, s, evs[0]);
      assert t.call == None || t.call == Some(Toggle);
      OnlySaveAndConfirmMutate(props, t.next, evs[1..]);
    }
  }

  /** A card collapsed while in edit mode (another card's header was clicked)
      is stuck: its own header click is suppressed and its form controls are
      not rendered, so no event changes it or invokes anything. */
  lemma {:induction false} CollapsedEditorIsStuck(props: CardProps, s: CardState, evs: seq<CardEvent>)
    requires !props.isExpanded && s.isEditing && !s.isDeleteDialogOpen
    ensures Run(props, s, evs) == Outcome(s, [])
    decreases |evs|
  {
    if |evs| > 0 {
      assert Step(props, s, evs[0]) == Transition(s, None);
      CollapsedEditorIsStuck(props, s, evs[1..]);
    }
  }
}
