/** The profile record, the object-spread update used by both components, and
    the three callbacks a card hands up to the list. */
module CelebrityTypes {
  import opened Wrappers

  datatype Celebrity = Celebrity(
    id: int,
    first: string,
    last: string,
    dob: string,
    gender: string,
    country: string,
    description: string,
    picture: string)

  /** The own properties of an object spread over a record: a present field
      overrides, an absent one leaves the base value. */
  datatype Patch = Patch(
    id: Option<int>,
    first: Option<string>,
    last: Option<string>,
    dob: Option<string>,
    gender: Option<string>,
    country: Option<string>,
    description: Option<string>,
    picture: Option<string>)

  function Pick<T>(o: Option<T>, base: T): T {
    match o
    case Some(v) => v
    case None => base
  }

  /** `{ ...base, ...patch }`. */
  function Spread(base: Celebrity, patch: Patch): Celebrity {
    Celebrity(
      Pick(patch.id, base.id),
      Pick(patch.first, base.first),
      Pick(patch.last, base.last),
      Pick(patch.dob, base.dob),
      Pick(patch.gender, base.gender),
      Pick(patch.country, base.country),
      Pick(patch.description, base.description),
      Pick(patch.picture, base.picture))
  }

  /** A full record used as a spread source: every field present. */
  function AsPatch(c: Celebrity): Patch {
    Patch(Some(c.id), Some(c.first), Some(c.last), Some(c.dob),
          Some(c.gender), Some(c.country), Some(c.description), Some(c.picture))
  }

  /** The patch carrying only the three editable fields. */
  function EditablePatch(gender: string, country: string, description: string): Patch {
    Patch(None, None, None, None, Some(gender), Some(country), Some(description), None)
  }

  /** Spreading a complete record over any record yields that complete record:
      nothing of the base survives. */
  lemma SpreadFullRecord(base: Celebrity, c: Celebrity)
    ensures Spread(base, AsPatch(c)) == c
  {
  }

  /** Spreading the editable fields replaces those three and keeps the
      identity, names, birth date and picture of the base. */
  lemma SpreadEditable(base: Celebrity, gender: string, country: string, description: string)
    ensures var r := Spread(base, EditablePatch(gender, country, description));
      && r.gender == gender && r.country == country && r.description == description
      && r.id == base.id && r.first == base.first && r.last == base.last
      && r.dob == base.dob && r.picture == base.picture
  {
  }

  /** The callbacks of the card's props: `onToggle()`, `onDelete(id)`,
      `onEdit(id, updated)`. */
  datatype UpCall = Toggle | Delete(id: int) | Edit(id: int, updated: Celebrity)

  /** No two records of the collection share an id (true of the loaded data,
      never re-checked). */
  ghost predicate UniqueIds(cs: seq<Celebrity>) {
    forall i, j :: 0 <= i < j < |cs| ==> cs[i].id != cs[j].id
  }
}
