/** Expansions and the load step that gives each one its card table: every
    expansion's card rows are decoded in order into a map keyed by card
    number, and that map replaces the expansion's table. */
module Expansions {
  import opened De
  import opened Cards
  import Rarities

  class Expansion {
    var name: string
    var packs: seq<string>
    var cards: map<nat, Card>
    var offeringRateTable: string

    /** An expansion as the expansions file describes it: a missing pack
        list means none, and the card table is not part of the file, so it
        starts out empty. */
    constructor (name: string, packs: Option<seq<string>>, offeringRateTable: string)
      ensures this.name == name && this.offeringRateTable == offeringRateTable
      ensures this.packs == (if packs.Some? then packs.value else [])
      ensures cards == map[]
    {
      this.name := name;
      this.packs := if packs.Some? then packs.value else [];
      this.cards := map[];
      this.offeringRateTable := offeringRateTable;
    }
  }

  /** Each row of a card file decoded on its own, in file order: the
      stand-in for the card reader. A row decodes exactly when its rarity
      literal is accepted, keeps its name and number, and otherwise yields
      the rarity decoder's rejection of that literal. */
  function DecodeRows(rows: seq<CardRecord>): (results: seq<Result<Card>>)
    ensures |results| == |rows|
    ensures forall i :: 0 <= i < |rows| ==> (results[i].Ok? <==> rows[i].rarity in Rarities.Accepted)
    ensures forall i :: 0 <= i < |rows| && results[i].Ok? ==>
      results[i].value.number == rows[i].number && results[i].value.name == rows[i].name
    ensures forall i :: 0 <= i < |rows| && results[i].Err? ==>
      results[i].error == UnknownVariant(rows[i].rarity, Rarities.Accepted)
  {
    seq(|rows|, i requires 0 <= i < |rows| => DeserializeCard(rows[i]))
  }

  /** The table the decoded rows give: each card inserted in turn under its
      number, a later card replacing an earlier one with the same number;
      the first row that did not decode rejects the whole table. */
  function CardTable(results: seq<Result<Card>>): Result<map<nat, Card>>
    decreases |results|
  {
    if results == [] then Ok(map[])
    else
      match CardTable(results[..|results| - 1])
      case Err(e) => Err(e)
      case Ok(table) =>
        match results[|results| - 1]
        case Err(e) => Err(e)
        case Ok(card) => Ok(table[card.number := card])
  }

  /** Once a prefix is rejected, so is the whole sequence, with the same
      error. */
  lemma {:induction false} RejectedPrefix(results: seq<Result<Card>>, n: nat)
    requires n <= |results| && CardTable(results[..n]).Err?
    ensures CardTable(results) == CardTable(results[..n])
    decreases |results|
  {
    if n < |results| {
      var init := results[..|results| - 1];
      assert init[..n] == results[..n];
      RejectedPrefix(init, n);
    } else {
      assert results[..n] == results;
    }
  }

  /** The table is built exactly when every row decodes. */
  lemma {:induction false} CardTableAccepts(results: seq<Result<Card>>)
    ensures CardTable(results).Ok? <==> forall i :: 0 <= i < |results| ==> results[i].Ok?
    decreases |results|
  {
    if results != [] {
      var init := results[..|results| - 1];
      CardTableAccepts(init);
      assert forall i :: 0 <= i < |init| ==> init[i] == results[i];
    }
  }

  /** A rejected table carries the error of the first row that did not
      decode; the witness is that row's index. */
  lemma {:induction false} CardTableFirstError(results: seq<Result<Card>>) returns (i: nat)
    requires CardTable(results).Err?
    ensures i < |results| && results[i] == Err(CardTable(results).error)
    ensures forall j :: 0 <= j < i ==> results[j].Ok?
    decreases |results|
  {
    var last := |results| - 1;
    var init := results[..last];
    if CardTable(init).Err? {
      i := CardTableFirstError(init);
      assert results[i] == init[i];
      assert forall j :: 0 <= j < i ==> results[j] == init[j];
    } else {
      CardTableAccepts(init);
      i := last;
      assert forall j :: 0 <= j < i ==> results[j] == init[j];
    }
  }

  /** The numbers of the decoded cards. */
  function Numbers(results: seq<Result<Card>>): set<nat>
  {
    set i | 0 <= i < |results| && results[i].Ok? :: results[i].value.number
  }

  /** The keys of a built table are the numbers of the cards. */
  lemma {:induction false} CardTableKeys(results: seq<Result<Card>>)
    requires CardTable(results).Ok?
    ensures CardTable(results).value.Keys == Numbers(results)
    decreases |results|
  {
    if results != [] {
      var last := |results| - 1;
      var init := results[..last];
      CardTableKeys(init);
      assert Numbers(results) == Numbers(init) + {results[last].value.number} by {
        assert forall i :: 0 <= i < |init| ==> init[i] == results[i];
      }
    }
  }

  /** Row `i` holds the last card with number `k`. */
  ghost predicate LastWith(results: seq<Result<Card>>, i: int, k: nat)
  {
    && 0 <= i < |results| && results[i].Ok? && results[i].value.number == k
    && forall j :: i < j < |results| && results[j].Ok? ==> results[j].value.number != k
  }

  /** Every entry of a built table is the card of the last row with that
      number, so its number is its key and it comes from these rows; the
      witness is that row's index. */
  lemma {:induction false} CardTableLastWins(results: seq<Result<Card>>, k: nat) returns (i: nat)
    requires CardTable(results).Ok? && k in CardTable(results).value
    ensures CardTable(results).value[k].number == k
    ensures LastWith(results, i, k) && results[i].value == CardTable(results).value[k]
    decreases |results|
  {
    var last := |results| - 1;
    var init := results[..last];
    var table := CardTable(init).value;
    var card := results[last].value;
    assert CardTable(results).value == table[card.number := card];
    if card.number != k {
      i := CardTableLastWins(init, k);
      assert results[i] == init[i];
      assert LastWith(results, i, k) by {
        forall j | i < j < |results| && results[j].Ok? ensures results[j].value.number != k {
          if j < last { assert results[j] == init[j]; }
        }
      }
    } else {
      i := last;
    }
  }

  /** A card file whose every rarity literal is accepted loads, and the
      table's keys are exactly the numbers in the file's rows. */
  lemma RowTableKeys(rows: seq<CardRecord>)
    requires forall i :: 0 <= i < |rows| ==> rows[i].rarity in Rarities.Accepted
    ensures CardTable(DecodeRows(rows)).Ok?
    ensures CardTable(DecodeRows(rows)).value.Keys == set i | 0 <= i < |rows| :: rows[i].number
  {
    var results := DecodeRows(rows);
    CardTableAccepts(results);
    CardTableKeys(results);
    assert Numbers(results) == set i | 0 <= i < |rows| :: rows[i].number by {
      assert forall i :: 0 <= i < |rows| ==> results[i].value.number == rows[i].number;
    }
  }

  /** In a card file whose every rarity literal is accepted, each number the
      table holds comes from the last row with that number, decoded; the
      witness is that row's index. */
  lemma RowTableLastWins(rows: seq<CardRecord>, k: nat) returns (i: nat)
    requires forall i :: 0 <= i < |rows| ==> rows[i].rarity in Rarities.Accepted
    requires k in set i | 0 <= i < |rows| :: rows[i].number
    ensures CardTable(DecodeRows(rows)).Ok? && k in CardTable(DecodeRows(rows)).value
    ensures i < |rows| && rows[i].number == k
    ensures DeserializeCard(rows[i]) == Ok(CardTable(DecodeRows(rows)).value[k])
    ensures forall j :: i < j < |rows| ==> rows[j].number != k
  {
    var results := DecodeRows(rows);
    CardTableAccepts(results);
    RowTableKeys(rows);
    i := CardTableLastWins(results, k);
    forall j | i < j < |rows| ensures rows[j].number != k {
      assert results[j].Ok? && results[j].value.number == rows[j].number;
    }
  }

  /** The load's inner loop: decode the rows of one card file in order into
      a fresh table, stopping at the first row that does not decode. */
  method BuildCardTable(rows: seq<CardRecord>) returns (r: Result<map<nat, Card>>)
    ensures r == CardTable(DecodeRows(rows))
  {
    ghost var results := DecodeRows(rows);
    var cards: map<nat, Card> := map[];
    for i := 0 to |rows|
      invariant CardTable(results[..i]) == Ok(cards)
    {
      assert results[..i + 1][..i] == results[..i];
      var card := DeserializeCard(rows[i]);
      if card.Err? {
        RejectedPrefix(results, i + 1);
        return Err(card.error);
      }
      cards := cards[card.value.number := card.value];
    }
    assert results[..|rows|] == results;
    return Ok(cards);
  }

  /** Why loading an expansion's cards fails. */
  datatype LoadError =
    | CardsFileMissing(expansionId: string, expansionName: string)
    | CardRejected(expansionId: string, expansionName: string, error: DeError)

  /** The failure, if any, of loading the cards of expansion `id` (named
      `name`) from the card files, keyed by expansion id. */
  function ExpansionFailure(id: string, name: string, files: map<string, seq<CardRecord>>): Option<LoadError>
  {
    if id !in files then Some(CardsFileMissing(id, name))
    else match CardTable(DecodeRows(files[id]))
      case Err(e) => Some(CardRejected(id, name, e))
      case Ok(_) => None
  }

  /** Expansion `id`, named `name`, has a card file that loads, and `cards`
      is the table that file gives. */
  ghost predicate Loaded(id: string, name: string, cards: map<nat, Card>, files: map<string, seq<CardRecord>>)
  {
    && ExpansionFailure(id, name, files).None?
    && cards == CardTable(DecodeRows(files[id])).value
  }

  /** No two expansion ids share one expansion object. */
  ghost predicate Distinct(expansions: map<string, Expansion>)
  {
    forall a, b :: a in expansions && b in expansions && a != b ==> expansions[a] != expansions[b]
  }

  /** The load loop: for every expansion, in no particular order, build the
      table of its card file and put it in place of the expansion's table.
      A missing file or a row that does not decode stops the load with that
      expansion's failure. On success every expansion holds exactly the
      table of its own file; in every case nothing but the card tables
      changes. */
  method LoadCards(expansions: map<string, Expansion>, files: map<string, seq<CardRecord>>)
    returns (failure: Option<LoadError>)
    requires Distinct(expansions)
    modifies set id | id in expansions :: expansions[id]
    ensures failure.None? <==>
      forall id :: id in expansions ==> ExpansionFailure(id, old(expansions[id].name), files).None?
    ensures failure.None? ==>
      forall id :: id in expansions ==> expansions[id].cards == CardTable(DecodeRows(files[id])).value
    ensures failure.Some? ==>
      exists id :: id in expansions && ExpansionFailure(id, old(expansions[id].name), files) == failure
    ensures forall id :: id in expansions ==>
      && expansions[id].name == old(expansions[id].name)
      && expansions[id].packs == old(expansions[id].packs)
      && expansions[id].offeringRateTable == old(expansions[id].offeringRateTable)
  {
    var todo := expansions.Keys;
    while todo != {}
      invariant todo <= expansions.Keys
      invariant forall id :: id in expansions ==>
        && expansions[id].name == old(expansions[id].name)
        && expansions[id].packs == old(expansions[id].packs)
        && expansions[id].offeringRateTable == old(expansions[id].offeringRateTable)
      invariant forall id :: id in expansions && id !in todo ==>
        Loaded(id, old(expansions[id].name), expansions[id].cards, files)
      decreases todo
    {
      var id :| id in todo;
      var expansion := expansions[id];
      if id !in files {
        return Some(CardsFileMissing(id, expansion.name));
      }
      var cards := BuildCardTable(files[id]);
      if cards.Err? {
        return Some(CardRejected(id, expansion.name, cards.error));
      }
      expansion.cards := cards.value;
      todo := todo - {id};
    }
    return None;
  }
}
