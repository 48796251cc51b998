/** The list controller: the record collection, the search term and the one
    expanded id, the search ordering derived from them, and the mutations the
    cards request through their callbacks. */
module CelebrityList {
  import opened Wrappers
  import opened Text
  import opened Seqs
  import opened CelebrityTypes

  /** The `"first last"` string the search runs against. */
  function FullName(c: Celebrity): string {
    c.first + " " + c.last
  }

  /** The search predicate: the lowercased full name includes the lowercased
      term. */
  predicate Matches(term: string, c: Celebrity) {
    Contains(Lower(FullName(c)), Lower(term))
  }

  function MatchesTerm(term: string): Celebrity -> bool {
    (c: Celebrity) => Matches(term, c)
  }

  /** The displayed order: the matching records, then the others. */
  function SortedCelebrities(cs: seq<Celebrity>, term: string): (r: seq<Celebrity>)
    ensures multiset(r) == multiset(cs)
    ensures forall i, j :: 0 <= i < j < |r| && Matches(term, r[j]) ==> Matches(term, r[i])
    ensures Select(MatchesTerm(term), true, r) == Select(MatchesTerm(term), true, cs)
    ensures Select(MatchesTerm(term), false, r) == Select(MatchesTerm(term), false, cs)
  {
    var p := MatchesTerm(term);
    PartitionPermutes(p, cs);
    PartitionSelectedFirst(p, cs);
    PartitionStable(p, cs);
    Partition(p, cs)
  }

  /** The displayed order is pinned down by its three properties: any
      arrangement with matches first that keeps both groups in collection
      order is the displayed order. */
  lemma SortedIsTheStablePartition(cs: seq<Celebrity>, term: string, r: seq<Celebrity>)
    requires forall i, j :: 0 <= i < j < |r| && Matches(term, r[j]) ==> Matches(term, r[i])
    requires Select(MatchesTerm(term), true, r) == Select(MatchesTerm(term), true, cs)
    requires Select(MatchesTerm(term), false, r) == Select(MatchesTerm(term), false, cs)
    ensures r == SortedCelebrities(cs, term)
  {
    PartitionUnique(MatchesTerm(term), cs, r);
  }

  /** With an empty search box every record matches, so the displayed order
      is the collection order. */
  lemma EmptySearchKeepsOrder(cs: seq<Celebrity>)
    ensures SortedCelebrities(cs, "") == cs
  {
    var p := MatchesTerm("");
    forall i | 0 <= i < |cs|
      ensures p(cs[i])
    {
      ContainsEmpty(Lower(FullName(cs[i])));
    }
    SelectAll(p, true, cs);
    SelectNone(p, false, cs);
  }

  /** Terms that lowercase alike produce the same displayed order. */
  lemma SearchIgnoresCase(cs: seq<Celebrity>, t1: string, t2: string)
    requires Lower(t1) == Lower(t2)
    ensures SortedCelebrities(cs, t1) == SortedCelebrities(cs, t2)
  {
    SelectCongruent(MatchesTerm(t1), MatchesTerm(t2), true, cs);
    SelectCongruent(MatchesTerm(t1), MatchesTerm(t2), false, cs);
  }

  /** Lowercasing the term before searching changes nothing: the search
      lowercases it anyway. */
  lemma SearchLowercasedTerm(cs: seq<Celebrity>, term: string)
    ensures SortedCelebrities(cs, Lower(term)) == SortedCelebrities(cs, term)
  {
    LowerIdempotent(term);
    SearchIgnoresCase(cs, Lower(term), term);
  }

  lemma {:induction false} SelectKeepsUniqueIds(p: Celebrity -> bool, keep: bool, cs: seq<Celebrity>)
    requires UniqueIds(cs)
    ensures UniqueIds(Select(p, keep, cs))
    decreases |cs|
  {
    if |cs| > 0 {
      var t := cs[1..];
      assert UniqueIds(t) by {
        forall i, j | 0 <= i < j < |t|
          ensures t[i].id != t[j].id
        {
          assert t[i] == cs[i + 1] && t[j] == cs[j + 1];
        }
      }
      SelectKeepsUniqueIds(p, keep, t);
      var rest := Select(p, keep, t);
      forall x | x in rest
        ensures x.id != cs[0].id
      {
        var k :| 0 <= k < |t| && t[k] == x;
        assert x == cs[k + 1];
      }
    }
  }

  /** The displayed order never shows two cards with the same id when the
      collection has none. */
  lemma SortedKeepsUniqueIds(cs: seq<Celebrity>, term: string)
    requires UniqueIds(cs)
    ensures UniqueIds(SortedCelebrities(cs, term))
  {
    var p := MatchesTerm(term);
    var a, b := Select(p, true, cs), Select(p, false, cs);
    SelectKeepsUniqueIds(p, true, cs);
    SelectKeepsUniqueIds(p, false, cs);
    var r := a + b;
    forall i, j | 0 <= i < j < |r|
      ensures r[i].id != r[j].id
    {
      if j < |a| {
        assert r[i] == a[i] && r[j] == a[j];
      } else if |a| <= i {
        assert r[i] == b[i - |a|] && r[j] == b[j - |a|];
      } else {
        assert r[i] == a[i] && a[i] in a;
        assert r[j] == b[j - |a|] && b[j - |a|] in b;
        var k1 :| 0 <= k1 < |cs| && cs[k1] == r[i];
        var k2 :| 0 <= k2 < |cs| && cs[k2] == r[j];
        assert k1 != k2;
      }
    }
  }

  /** `toggleAccordion`: collapse the expanded card, or expand another one. */
  function ToggleAccordion(expanded: Option<int>, id: int): (r: Option<int>)
    ensures r == None <==> expanded == Some(id)
    ensures r != None ==> r == Some(id)
  {
    if expanded == Some(id) then None else Some(id)
  }

  /** Two clicks on the same header restore the previous expansion. */
  lemma ToggleTwiceRestores(expanded: Option<int>, id: int)
    requires expanded == None || expanded == Some(id)
    ensures ToggleAccordion(ToggleAccordion(expanded, id), id) == expanded
  {
  }

  function HasId(id: int): Celebrity -> bool {
    (c: Celebrity) => c.id == id
  }

  /** `handleDelete`: drop the records carrying the id. */
  function DeleteById(cs: seq<Celebrity>, id: int): (r: seq<Celebrity>)
    ensures forall c :: c in r <==> c in cs && c.id != id
    ensures forall c :: multiset(r)[c] == if c.id == id then 0 else multiset(cs)[c]
  {
    SelectMultiplicity(HasId(id), false, cs);
    SelectMembership(HasId(id), false, cs);
    Select(HasId(id), false, cs)
  }

  /** Deletion works piecewise, so the survivors keep their relative order
      whatever the ids are. */
  lemma DeleteDistributes(a: seq<Celebrity>, b: seq<Celebrity>, id: int)
    ensures DeleteById(a + b, id) == DeleteById(a, id) + DeleteById(b, id)
  {
    SelectAppend(HasId(id), false, a, b);
  }

  /** Deleting an id nobody carries leaves the collection as it was. */
  lemma DeleteAbsentIsNoop(cs: seq<Celebrity>, id: int)
    requires forall i :: 0 <= i < |cs| ==> cs[i].id != id
    ensures DeleteById(cs, id) == cs
  {
    SelectAll(HasId(id), false, cs);
  }

  /** With unique ids, deleting the id at position `k` removes exactly that
      position and keeps the rest in order. */
  lemma DeleteRemovesExactlyOne(cs: seq<Celebrity>, id: int, k: int)
    requires UniqueIds(cs)
    requires 0 <= k < |cs| && cs[k].id == id
    ensures DeleteById(cs, id) == cs[..k] + cs[k + 1..]
    ensures |DeleteById(cs, id)| == |cs| - 1
  {
    var p := HasId(id);
    var pre, mid, post := cs[..k], [cs[k]], cs[k + 1..];
    assert cs == (pre + mid) + post;
    assert Select(p, false, pre) == pre by {
      forall i | 0 <= i < |pre|
        ensures !p(pre[i])
      {
        assert pre[i] == cs[i];
      }
      SelectAll(p, false, pre);
    }
    assert Select(p, false, post) == post by {
      forall i | 0 <= i < |post|
        ensures !p(post[i])
      {
        assert post[i] == cs[k + 1 + i];
      }
      SelectAll(p, false, post);
    }
    assert Select(p, false, mid) == [] by {
      assert p(cs[k]);
    }
    SelectAppend(p, false, pre, mid);
    SelectAppend(p, false, pre + mid, post);
    assert pre + [] == pre;
  }

  /** `handleEdit`: every record carrying the id becomes
      `{ ...record, ...updated }`. */
  function EditById(cs: seq<Celebrity>, id: int, updated: Celebrity): (r: seq<Celebrity>)
    ensures |r| == |cs|
    ensures forall i :: 0 <= i < |cs| && cs[i].id == id ==> r[i] == updated
    ensures forall i :: 0 <= i < |cs| && cs[i].id != id ==> r[i] == cs[i]
  {
    seq(|cs|, i requires 0 <= i < |cs| =>
      if cs[i].id == id then Spread(cs[i], AsPatch(updated)) else cs[i])
  }

  lemma EditAbsentIsNoop(cs: seq<Celebrity>, id: int, updated: Celebrity)
    requires forall i :: 0 <= i < |cs| ==> cs[i].id != id
    ensures EditById(cs, id, updated) == cs
  {
  }

  /** Saving the same record twice changes nothing the second time. */
  lemma EditIdempotent(cs: seq<Celebrity>, id: int, updated: Celebrity)
    ensures EditById(EditById(cs, id, updated), id, updated) == EditById(cs, id, updated)
  {
  }

  /** An edit that keeps the record's own id keeps the ids unique. */
  lemma EditKeepsUniqueIds(cs: seq<Celebrity>, id: int, updated: Celebrity)
    requires UniqueIds(cs)
    requires updated.id == id
    ensures UniqueIds(EditById(cs, id, updated))
  {
    var r := EditById(cs, id, updated);
    forall i, j | 0 <= i < j < |r|
      ensures r[i].id != r[j].id
    {
      assert r[i].id == cs[i].id && r[j].id == cs[j].id;
    }
  }

  /** The controller's state. */
  datatype ListState = ListState(celebrities: seq<Celebrity>, searchTerm: string, expandedId: Option<int>)

  /** Empty collection, empty search box, nothing expanded. */
  function InitialList(): (s: ListState)
    ensures s.celebrities == [] && s.searchTerm == "" && s.expandedId == None
    ensures UniqueIds(s.celebrities) && Displayed(s) == []
  {
    ListState([], "", None)
  }

  datatype ListEvent =
    | Loaded(data: seq<Celebrity>)
    | Search(term: string)
    | ToggleExpand(id: int)
    | Remove(id: int)
    | Update(id: int, updated: Celebrity)

  /** One state update of the controller. */
  function ListStep(s: ListState, ev: ListEvent): ListState {
    match ev
    case Loaded(data) => s.(celebrities := data)
    case Search(term) => s.(searchTerm := term)
    case ToggleExpand(id) => s.(expandedId := ToggleAccordion(s.expandedId, id))
    case Remove(id) => s.(celebrities := DeleteById(s.celebrities, id))
    case Update(id, updated) => s.(celebrities := EditById(s.celebrities, id, updated))
  }

  /** The cards in screen order. */
  function Displayed(s: ListState): seq<Celebrity> {
    SortedCelebrities(s.celebrities, s.searchTerm)
  }

  /** The `isExpanded` prop of a card. */
  predicate IsExpanded(s: ListState, c: Celebrity) {
    s.expandedId == Some(c.id)
  }

  /** Typing in the search box reorders the screen but leaves the collection
      and the expansion alone. */
  lemma SearchLeavesCollection(s: ListState, term: string)
    ensures ListStep(s, Search(term)).celebrities == s.celebrities
    ensures ListStep(s, Search(term)).expandedId == s.expandedId
    ensures multiset(Displayed(ListStep(s, Search(term)))) == multiset(s.celebrities)
  {
  }

  /** Every controller step keeps ids unique, provided loaded data has unique
      ids and an edit keeps the record's id (as a card's save always does). */
  lemma ListStepKeepsUniqueIds(s: ListState, ev: ListEvent)
    requires UniqueIds(s.celebrities)
    requires ev.Loaded? ==> UniqueIds(ev.data)
    requires ev.Update? ==> ev.updated.id == ev.id
    ensures UniqueIds(ListStep(s, ev).celebrities)
  {
    match ev
    case Loaded(data) =>
    case Search(term) =>
    case ToggleExpand(id) =>
    case Remove(id) =>
      SelectKeepsUniqueIds(HasId(id), false, s.celebrities);
    case Update(id, updated) =>
      EditKeepsUniqueIds(s.celebrities, id, updated);
  }

  /** At most one card on screen is expanded. */
  lemma AtMostOneExpanded(s: ListState)
    requires UniqueIds(s.celebrities)
    ensures forall i, j ::
              0 <= i < |Displayed(s)| && 0 <= j < |Displayed(s)|
              && IsExpanded(s, Displayed(s)[i]) && IsExpanded(s, Displayed(s)[j])
              ==> i == j
  {
    SortedKeepsUniqueIds(s.celebrities, s.searchTerm);
  }

  /** The card callbacks wired in the render: `onToggle` toggles the card's
      own id, `onDelete` and `onEdit` go to the two mutations. */
  function Deliver(s: ListState, cardId: int, call: UpCall): ListState {
    match call
    case Toggle => ListStep(s, ToggleExpand(cardId))
    case Delete(id) => ListStep(s, Remove(id))
    case Edit(id, updated) => ListStep(s, Update(id, updated))
  }
}
