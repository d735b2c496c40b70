/** The grid of employee cards: the cards `displayEmployees` appends, one per
    record with its position as `data-index`, and the visibility the search
    button gives each card. */
module Gallery {
  import opened Search

  /** One record of the fetched batch, with the fields the page shows.
      The birth date stays as the provider's text; it is turned into
      month, day and year by the host's date parser. */
  datatype Person = Person(
    first: string, last: string, email: string, phone: string,
    street: string, city: string, state: string, postcode: string,
    picture: string, dob: string)

  /** A card's inline `style.display`: none set yet, "flex" or "none". */
  datatype Display = Unset | Flex | Hidden

  /** A rendered card: its `data-index`, the text of its name heading, and
      its display. */
  datatype Card = Card(index: int, name: string, display: Display)

  /** The name heading's text: first name, a space, last name. */
  function FullName(p: Person): (name: string)
    ensures |name| == |p.first| + 1 + |p.last|
    ensures name[..|p.first|] == p.first && name[|p.first|] == ' '
    ensures name[|p.first| + 1..] == p.last
  {
    p.first + " " + p.last
  }

  /** The cards for `records`, numbered from `start`, in record order. */
  function CardsFrom(records: seq<Person>, start: int): (cards: seq<Card>)
    decreases records
    ensures |cards| == |records|
    ensures forall i :: 0 <= i < |cards| ==>
              cards[i].index == start + i && cards[i].name == FullName(records[i])
              && cards[i].display == Unset
  {
    if records == [] then []
    else [Card(start, FullName(records[0]), Unset)] + CardsFrom(records[1..], start + 1)
  }

  /** The cards rendered for a whole batch: card i carries index i and the
      name of record i, with no display set yet. */
  function CardsFor(records: seq<Person>): (cards: seq<Card>)
    ensures |cards| == |records|
    ensures forall i :: 0 <= i < |cards| ==> cards[i] == Card(i, FullName(records[i]), Unset)
  {
    CardsFrom(records, 0)
  }

  function CardIndices(cards: seq<Card>): (indices: seq<int>)
    ensures |indices| == |cards|
    ensures forall i :: 0 <= i < |cards| ==> indices[i] == cards[i].index
  {
    if cards == [] then [] else [cards[0].index] + CardIndices(cards[1..])
  }

  /** N records give N cards whose indices are 0, 1, ..., N - 1, so no two
      cards share an index. */
  lemma CardIndicesArePositions(records: seq<Person>)
    ensures CardIndices(CardsFor(records)) == seq(|records|, i => i)
  {
  }

  /** The card at index i shows the name of record i: resolving a clicked
      card through its index reaches the record the card was drawn from. */
  lemma CardNamesItsRecord(records: seq<Person>, i: int)
    requires 0 <= i < |records|
    ensures 0 <= CardsFor(records)[i].index < |records|
    ensures FullName(records[CardsFor(records)[i].index]) == CardsFor(records)[i].name
  {
  }

  /** The search rule: the lower-cased name contains the lower-cased query
      at some position. */
  predicate Matches(name: string, query: string)
    ensures Matches(name, query) <==> exists i :: OccursAt(Lower(name), Lower(query), i)
  {
    Includes(Lower(name), Lower(query))
  }

  /** Every card after one search: "flex" if its name matches, "none" if
      not; index and name untouched. */
  function Filtered(cards: seq<Card>, query: string): (r: seq<Card>)
    ensures |r| == |cards|
  {
    seq(|cards|, i requires 0 <= i < |cards| =>
      cards[i].(display := if Matches(cards[i].name, query) then Flex else Hidden))
  }

  /** A search keeps every card, with its index and name, and shows exactly
      the matching ones. */
  lemma FilterKeepsCards(cards: seq<Card>, query: string, i: int)
    requires 0 <= i < |cards|
    ensures |Filtered(cards, query)| == |cards|
    ensures Filtered(cards, query)[i].index == cards[i].index
    ensures Filtered(cards, query)[i].name == cards[i].name
    ensures Filtered(cards, query)[i].display == Flex <==> Matches(cards[i].name, query)
    ensures Filtered(cards, query)[i].display == Hidden <==> !Matches(cards[i].name, query)
  {
  }

  /** The empty query shows every card. */
  lemma EmptyQueryShowsAll(cards: seq<Card>)
    ensures forall i :: 0 <= i < |cards| ==> Filtered(cards, "")[i].display == Flex
  {
    forall i | 0 <= i < |cards| ensures Matches(cards[i].name, "") {
      assert OccursAt(Lower(cards[i].name), Lower(""), 0);
    }
  }

  /** A search decides each card afresh: cards hidden by an earlier search
      reappear when the next query matches them. */
  lemma LastSearchWins(cards: seq<Card>, q1: string, q2: string)
    ensures Filtered(Filtered(cards, q1), q2) == Filtered(cards, q2)
  {
  }

  /** Searching is blind to the case of the query's letters. */
  lemma QueryCaseIgnored(name: string, query: string)
    ensures Matches(name, query) <==> Matches(name, Lower(query))
  {
    LowerIdempotent(query);
  }

  /** Searching is blind to the case of the name's letters too. */
  lemma NameCaseIgnored(name: string, query: string)
    ensures Matches(name, query) <==> Matches(Lower(name), query)
  {
    LowerIdempotent(name);
  }

  /** "ANN" finds "Anna Smith". */
  lemma MatchExample()
    ensures Matches("Anna Smith", "ANN")
  {
    assert Lower("ANN") == "ann";
    assert Lower("Anna Smith")[0..3] == "ann";
    assert OccursAt(Lower("Anna Smith"), Lower("ANN"), 0);
  }
}
