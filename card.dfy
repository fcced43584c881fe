/** A catalog card, how its pack list is read from the catalog, and the
    fixed per-rarity offering rates of the fourth and fifth card slots. */
module Cards {
  import opened De
  import opened Rarities
  import Split

  datatype Card = Card(name: string, number: nat, rarity: Rarity, packs: seq<string>)

  /** One row of an expansion's card file as the reader hands it over:
      the rarity and the pack list still as their literals, and the pack
      column absent when the row has none. */
  datatype CardRecord = CardRecord(name: string, number: nat, rarity: string, packs: Option<string>)

  const PackSeparator: char := '|'

  /** The packs a card belongs to, read from a `|`-separated literal. The
      empty literal means "no packs" (a card outside every pack); any other
      literal is cut at every `|`, keeping empty fields, so its fields
      joined back with `|` give the literal again. */
  function DeserializeCardPacks(s: string): (packs: seq<string>)
    ensures s == [] <==> packs == []
    ensures s != [] ==> Split.Join(packs, PackSeparator) == s
    ensures Split.SepFree(packs, PackSeparator)
    ensures s != [] ==> |packs| == Split.Count(s, PackSeparator) + 1
  {
    if s == [] then []
    else
      Split.JoinSplit(s, PackSeparator);
      Split.SplitSepFree(s, PackSeparator);
      Split.SplitLength(s, PackSeparator);
      Split.Split(s, PackSeparator)
  }

  /** The pack list is the only separator-free decomposition of the
      literal. */
  lemma CardPacksUnique(s: string, parts: seq<string>)
    requires s != []
    requires Split.SepFree(parts, PackSeparator) && Split.Join(parts, PackSeparator) == s
    ensures DeserializeCardPacks(s) == parts
  {
    Split.SplitJoin(parts, PackSeparator);
  }

  /** A name is in the pack list exactly when it is a field of the literal. */
  lemma CardPacksAreFields(s: string, x: string)
    requires s != []
    ensures x in DeserializeCardPacks(s) <==> Split.IsField(s, PackSeparator, x)
  {
    Split.SplitIsFields(s, PackSeparator, x);
  }

  /** A card row decoded into a card: the rarity literal must be one of the
      accepted ones, otherwise the row is rejected with that literal; a
      missing pack column gives no packs. */
  function DeserializeCard(rec: CardRecord): (r: Result<Card>)
    ensures r.Ok? <==> rec.rarity in Accepted
    ensures r.Err? ==> r.error == UnknownVariant(rec.rarity, Accepted)
    ensures r.Ok? ==> && r.value.name == rec.name
                      && r.value.number == rec.number
                      && Literal(r.value.rarity) == rec.rarity
    ensures r.Ok? && rec.packs.None? ==> r.value.packs == []
    ensures r.Ok? && rec.packs.Some? ==> r.value.packs == DeserializeCardPacks(rec.packs.value)
  {
    match VisitStr(rec.rarity)
    case Err(e) => Err(e)
    case Ok(rarity) =>
      var packs := match rec.packs
        case None => []
        case Some(s) => DeserializeCardPacks(s);
      Ok(Card(rec.name, rec.number, rarity, packs))
  }

  /** The fixed rate at which the fourth card of a pack is of the given
      rarity. Commons are never offered there. */
  function FourthCardOfferingRate(rarity: Rarity): (rate: real)
    ensures 0.0 <= rate < 1.0
    ensures rate == 0.0 <==> rarity == OneDiamond
  {
    match rarity
    case OneDiamond => 0.0
    case TwoDiamonds => 0.90000
    case ThreeDiamonds => 0.05000
    case FourDiamonds => 0.01666
    case OneStar => 0.02572
    case TwoStars => 0.00500
    case ThreeStars => 0.00222
    case Crown => 0.0004
  }

  /** The fixed rate at which the fifth card of a pack is of the given
      rarity. Commons are never offered there either. */
  function FifthCardOfferingRate(rarity: Rarity): (rate: real)
    ensures 0.0 <= rate < 1.0
    ensures rate == 0.0 <==> rarity == OneDiamond
  {
    match rarity
    case OneDiamond => 0.0
    case TwoDiamonds => 0.60000
    case ThreeDiamonds => 0.20000
    case FourDiamonds => 0.06664
    case OneStar => 0.10288
    case TwoStars => 0.02000
    case ThreeStars => 0.00888
    case Crown => 0.00160
  }
}
