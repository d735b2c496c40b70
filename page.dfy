/** The script's module-level state and its event handlers: the fetched
    records (`employees`), the cards in the gallery, the overlay cursor
    (`modalPlace`) and whether a detail overlay is on the page. */
module Page {
  import opened Cursor
  import opened Gallery
  import Search

  /** The detail overlay: not on the page, or showing the record at `shown`. */
  datatype Overlay = Absent | Present(shown: int)

  /** What a click inside the gallery lands on: the gallery's own background,
      or some element inside a card, whose `data-index` it resolves to. */
  datatype GalleryTarget = Background | InCard(dataIndex: int)

  /** What a click anywhere on the document lands on, as the delegated
      listener sorts it. */
  datatype DocumentTarget = CloseControl | NextControl | PrevControl | Elsewhere

  class Page {
    var employees: seq<Person>
    var cards: seq<Card>
    var modalPlace: int
    var overlay: Overlay

    /** Whether `employees[i]` is a record. Reading any other position
        gives `undefined`, and destructuring it throws. */
    predicate HasRecord(i: int)
      reads this
    {
      0 <= i < |employees|
    }

    /** An open overlay shows a fetched record, and it is the one the cursor
        is on whenever the cursor is on a fetched record. */
    predicate Valid()
      reads this
    {
      overlay.Present? ==> HasRecord(overlay.shown) &&
                           (HasRecord(modalPlace) ==> overlay.shown == modalPlace)
    }

    /** The page before the fetch resolves: no records, no cards, cursor 0,
        no overlay. */
    constructor ()
      ensures Valid()
      ensures employees == [] && cards == [] && modalPlace == 0 && overlay == Absent
    {
      employees := [];
      cards := [];
      modalPlace := 0;
      overlay := Absent;
    }

    /** `displayEmployees`: keep the batch, and append one card per record,
        in order, numbered by its position in the batch. */
    method DisplayEmployees(data: seq<Person>)
      modifies this
      ensures overlay == Absent ==> Valid()
      ensures employees == data
      ensures cards == old(cards) + CardsFor(data)
      ensures modalPlace == old(modalPlace) && overlay == old(overlay)
    {
      employees := data;
      ghost var before := cards;
      var index := 0;
      while index < |data|
        invariant 0 <= index <= |data|
        invariant |cards| == |before| + index && cards[..|before|] == before
        invariant forall k :: 0 <= k < index ==>
                    cards[|before| + k] == Card(k, FullName(data[k]), Unset)
        invariant employees == data
        invariant modalPlace == old(modalPlace) && overlay == old(overlay)
      {
        cards := cards + [Card(index, FullName(data[index]), Unset)];
        index := index + 1;
      }
      assert cards == before + CardsFor(data);
    }

    /** The gallery's click listener: a click on the background does
        nothing; a click in a card moves the cursor to that card's index and
        opens the overlay on that record. When the index names no record,
        `displayModal` throws before it inserts anything: the cursor has
        moved, but no overlay opens. */
    method GalleryClick(target: GalleryTarget)
      requires Valid()
      modifies this
      ensures Valid()
      ensures employees == old(employees) && cards == old(cards)
      ensures target.Background? ==> modalPlace == old(modalPlace) && overlay == old(overlay)
      ensures target.InCard? ==> modalPlace == target.dataIndex
      ensures target.InCard? && HasRecord(target.dataIndex) ==> overlay == Present(target.dataIndex)
      ensures target.InCard? && !HasRecord(target.dataIndex) ==> overlay == old(overlay)
    {
      match target
      case Background =>
      case InCard(index) =>
        modalPlace := index;
        if HasRecord(index) {
          overlay := Present(index);
        }
    }

    /** The document's click listener. The close control removes the overlay
        and leaves the cursor as it was; Next and Prev move the cursor with
        wrap-around and show the record it lands on; any other click changes
        nothing. The three controls exist only while an overlay is open.
        When the cursor lands on a position with no record (a batch shorter
        than `employeeNum`), `updateModal` throws before it changes the
        overlay, which keeps showing the record it showed. */
    method DocumentClick(target: DocumentTarget)
      requires Valid()
      requires target != Elsewhere ==> overlay.Present?
      modifies this
      ensures Valid()
      ensures employees == old(employees) && cards == old(cards)
      ensures target == CloseControl ==> overlay == Absent && modalPlace == old(modalPlace)
      ensures target == NextControl ==> modalPlace == NextPlace(old(modalPlace))
      ensures target == PrevControl ==> modalPlace == PrevPlace(old(modalPlace))
      ensures target in {NextControl, PrevControl} ==>
                overlay == if HasRecord(modalPlace) then Present(modalPlace) else old(overlay)
      ensures target == Elsewhere ==> modalPlace == old(modalPlace) && overlay == old(overlay)
    {
      var modalMax := EmployeeNum - 1;
      match target
      case CloseControl =>
        overlay := Absent;
      case NextControl =>
        if modalPlace == modalMax {
          modalPlace := 0;
        } else {
          modalPlace := modalPlace + 1;
        }
        UpdateModal();
      case PrevControl =>
        if modalPlace == 0 {
          modalPlace := modalMax;
        } else {
          modalPlace := modalPlace - 1;
        }
        UpdateModal();
      case Elsewhere =>
    }

    /** `updateModal(modalPlace)`: the open overlay now shows the record at
        the cursor; with no record there, it throws and changes nothing. */
    method UpdateModal()
      requires overlay.Present?
      modifies this`overlay
      ensures overlay == if HasRecord(modalPlace) then Present(modalPlace) else old(overlay)
    {
      if HasRecord(modalPlace) {
        overlay := Present(modalPlace);
      }
    }

    /** The search button: every card's display becomes "flex" when its
        lower-cased name contains the lower-cased query, "none" otherwise.
        No card is added or removed. */
    method SearchClick(query: string)
      requires Valid()
      modifies this
      ensures Valid()
      ensures cards == Filtered(old(cards), query)
      ensures employees == old(employees)
      ensures modalPlace == old(modalPlace) && overlay == old(overlay)
    {
      var search := Search.Lower(query);
      var i := 0;
      while i < |cards|
        invariant 0 <= i <= |cards| == |old(cards)|
        invariant forall k :: 0 <= k < i ==> cards[k] == Filtered(old(cards), query)[k]
        invariant forall k :: i <= k < |cards| ==> cards[k] == old(cards)[k]
        invariant employees == old(employees)
        invariant modalPlace == old(modalPlace) && overlay == old(overlay)
      {
        var shown := if Search.Includes(Search.Lower(cards[i].name), search) then Flex else Hidden;
        cards := cards[i := cards[i].(display := shown)];
        i := i + 1;
      }
    }
  }

  /** A batch of three records: open card 0, press Next, Next, Prev, then
      close; the overlay shows records 0, 1, 2 and 1, and closing keeps the
      cursor at 1. Reopened on card 2, Next moves the cursor to 3, past the
      batch, and the overlay stays on record 2. */
  method NavigationScenario(p: Person)
  {
    var page := new Page();
    page.DisplayEmployees([p, p, p]);
    page.GalleryClick(InCard(0));
    assert page.overlay == Present(0);
    page.DocumentClick(NextControl);
    assert page.overlay == Present(1);
    page.DocumentClick(NextControl);
    assert page.overlay == Present(2);
    page.DocumentClick(PrevControl);
    assert page.overlay == Present(1);
    page.DocumentClick(CloseControl);
    assert page.overlay == Absent && page.modalPlace == 1;
    page.GalleryClick(InCard(2));
    page.DocumentClick(NextControl);
    assert page.modalPlace == 3 && page.overlay == Present(2);
  }
}
