/** An offering-rate table read from configuration: per slot, a sparse map
    from rarity to the rate at which that slot offers it. A rarity the
    map leaves out is never offered in that slot. */
module OfferingRates {
  import opened De
  import opened Rarities
  import Cards

  /** The stored rate, if the map has one. */
  function Get(m: map<Rarity, real>, rarity: Rarity): Option<real>
  {
    if rarity in m then Some(m[rarity]) else None
  }

  function UnwrapOr(o: Option<real>, default: real): real
  {
    match o
    case Some(v) => v
    case None => default
  }

  datatype OfferingRates = OfferingRates(fourthCard: map<Rarity, real>, fifthCard: map<Rarity, real>)
  {
    /** The fourth-slot rate of a rarity: the stored one, or 0 when the
        fourth-slot map has none. */
    function FourthCardOfferingRate(rarity: Rarity): (rate: real)
      ensures rarity in fourthCard ==> rate == fourthCard[rarity]
      ensures rarity !in fourthCard ==> rate == 0.0
    {
      UnwrapOr(Get(fourthCard, rarity), 0.0)
    }

    /** The fifth-slot rate of a rarity: the stored one, or 0 when the
        fifth-slot map has none. */
    function FifthCardOfferingRate(rarity: Rarity): (rate: real)
      ensures rarity in fifthCard ==> rate == fifthCard[rarity]
      ensures rarity !in fifthCard ==> rate == 0.0
    {
      UnwrapOr(Get(fifthCard, rarity), 0.0)
    }
  }

  /** The fourth-slot lookup reads only the fourth-slot map and the
      fifth-slot lookup only the fifth-slot map. */
  lemma SlotsIndependent(t: OfferingRates, m: map<Rarity, real>, rarity: Rarity)
    ensures t.(fifthCard := m).FourthCardOfferingRate(rarity) == t.FourthCardOfferingRate(rarity)
    ensures t.(fourthCard := m).FifthCardOfferingRate(rarity) == t.FifthCardOfferingRate(rarity)
  {
  }

  /** Every stored rate lies in [0, 1]. */
  ghost predicate RatesAreProbabilities(t: OfferingRates)
  {
    && (forall r :: r in t.fourthCard ==> 0.0 <= t.fourthCard[r] <= 1.0)
    && (forall r :: r in t.fifthCard ==> 0.0 <= t.fifthCard[r] <= 1.0)
  }

  /** When the stored rates are probabilities, so is every lookup, absent
      rarities included. */
  lemma LookupsAreProbabilities(t: OfferingRates, rarity: Rarity)
    requires RatesAreProbabilities(t)
    ensures 0.0 <= t.FourthCardOfferingRate(rarity) <= 1.0
    ensures 0.0 <= t.FifthCardOfferingRate(rarity) <= 1.0
  {
  }

  /** The fixed tables of the card module written as a sparse table, so
      that the two kinds of rate table can be compared; this is not an
      operation of the program. Common cards, whose fixed rate is 0, are
      left out of both maps. */
  function FixedRates(): (t: OfferingRates)
    ensures OneDiamond !in t.fourthCard && OneDiamond !in t.fifthCard
  {
    OfferingRates(
      map r | r in AllRarities && r != OneDiamond :: Cards.FourthCardOfferingRate(r),
      map r | r in AllRarities && r != OneDiamond :: Cards.FifthCardOfferingRate(r))
  }

  /** Looking the sparse form up with its zero default gives the fixed
      tables back for every rarity: the two kinds of table agree. */
  lemma FixedRatesAgree(rarity: Rarity)
    ensures FixedRates().FourthCardOfferingRate(rarity) == Cards.FourthCardOfferingRate(rarity)
    ensures FixedRates().FifthCardOfferingRate(rarity) == Cards.FifthCardOfferingRate(rarity)
  {
    AllRaritiesComplete(rarity);
  }
}
