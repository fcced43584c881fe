/** The rarity tiers of a card and the glyph literals the catalog spells
    them with. The program declares the enumeration twice, with the same
    variants and the same string decoder; they are modelled once here. */
module Rarities {
  import opened De

  datatype Rarity =
    | OneDiamond | TwoDiamonds | ThreeDiamonds | FourDiamonds
    | OneStar | TwoStars | ThreeStars
    | Crown

  const WhiteDiamond: char := '♢'
  const WhiteStar: char := '☆'
  const WhiteQueen: char := '♕'

  /** The literals the decoder accepts, in the order of its match arms; it
      reports this same list when it rejects a string. */
  const Accepted: seq<string> := ["♢", "♢♢", "♢♢♢", "♢♢♢♢", "☆", "☆☆", "☆☆☆", "♕"]

  /** Every variant, in declaration order. */
  const AllRarities: seq<Rarity> :=
    [OneDiamond, TwoDiamonds, ThreeDiamonds, FourDiamonds, OneStar, TwoStars, ThreeStars, Crown]

  const DiamondTiers: seq<Rarity> := [OneDiamond, TwoDiamonds, ThreeDiamonds, FourDiamonds]
  const StarTiers: seq<Rarity> := [OneStar, TwoStars, ThreeStars]

  /** `n` copies of `c`. */
  function Repeat(c: char, n: nat): (s: string)
    ensures |s| == n
    ensures forall i :: 0 <= i < n ==> s[i] == c
  {
    if n == 0 then [] else [c] + Repeat(c, n - 1)
  }

  /** How the catalog spells a tier: one to four diamonds, one to three
      stars, or a crown. */
  function Literal(r: Rarity): string
  {
    match r
    case OneDiamond => Repeat(WhiteDiamond, 1)
    case TwoDiamonds => Repeat(WhiteDiamond, 2)
    case ThreeDiamonds => Repeat(WhiteDiamond, 3)
    case FourDiamonds => Repeat(WhiteDiamond, 4)
    case OneStar => Repeat(WhiteStar, 1)
    case TwoStars => Repeat(WhiteStar, 2)
    case ThreeStars => Repeat(WhiteStar, 3)
    case Crown => [WhiteQueen]
  }

  /** The catalog's rarity decoder: an exact match of the whole string
      against the eight literals; anything else is an unknown variant that
      carries the string and the accepted list. */
  function VisitStr(s: string): (r: Result<Rarity>)
    ensures r.Ok? <==> s in Accepted
    ensures r.Ok? ==> Literal(r.value) == s
    ensures r.Err? ==> r.error == UnknownVariant(s, Accepted)
  {
    match s
    case "♢" => Ok(OneDiamond)
    case "♢♢" => Ok(TwoDiamonds)
    case "♢♢♢" => Ok(ThreeDiamonds)
    case "♢♢♢♢" => Ok(FourDiamonds)
    case "☆" => Ok(OneStar)
    case "☆☆" => Ok(TwoStars)
    case "☆☆☆" => Ok(ThreeStars)
    case "♕" => Ok(Crown)
    case _ => Err(UnknownVariant(s, Accepted))
  }

  /** Every variant is produced by exactly its own literal. */
  lemma DecodeLiteral(r: Rarity)
    ensures VisitStr(Literal(r)) == Ok(r)
  {
    match r
    case OneDiamond => assert Literal(r) == "♢";
    case TwoDiamonds => assert Literal(r) == "♢♢";
    case ThreeDiamonds => assert Literal(r) == "♢♢♢";
    case FourDiamonds => assert Literal(r) == "♢♢♢♢";
    case OneStar => assert Literal(r) == "☆";
    case TwoStars => assert Literal(r) == "☆☆";
    case ThreeStars => assert Literal(r) == "☆☆☆";
    case Crown =>
  }

  /** Two accepted strings that decode to the same variant are the same
      string: no variant has a second spelling. */
  lemma DecodeInjective(s: string, t: string)
    requires VisitStr(s).Ok? && VisitStr(t).Ok?
    requires VisitStr(s).value == VisitStr(t).value
    ensures s == t
  {
  }

  /** The accepted list is the success arms' literals in arm order: its
      i-th entry decodes to the i-th variant and is that variant's literal. */
  lemma AcceptedIsArmOrder()
    ensures |Accepted| == |AllRarities|
    ensures forall i :: 0 <= i < |Accepted| ==> VisitStr(Accepted[i]) == Ok(AllRarities[i])
    ensures forall i :: 0 <= i < |AllRarities| ==> Literal(AllRarities[i]) == Accepted[i]
  {
    forall i | 0 <= i < |AllRarities| ensures Literal(AllRarities[i]) == Accepted[i] {
      DecodeLiteral(AllRarities[i]);
    }
  }

  /** The accepted list holds eight different literals. */
  lemma AcceptedDistinct()
    ensures |Accepted| == 8
    ensures forall i, j :: 0 <= i < j < |Accepted| ==> Accepted[i] != Accepted[j]
  {
    forall i, j | 0 <= i < j < |Accepted| ensures Accepted[i] != Accepted[j] {
      AcceptedIsArmOrder();
    }
  }

  /** The variant list names every variant, so the accepted list covers
      every tier. */
  lemma AllRaritiesComplete(r: Rarity)
    ensures r in AllRarities
    ensures Literal(r) in Accepted
  {
    DecodeLiteral(r);
    match r
    case OneDiamond => assert AllRarities[0] == r;
    case TwoDiamonds => assert AllRarities[1] == r;
    case ThreeDiamonds => assert AllRarities[2] == r;
    case FourDiamonds => assert AllRarities[3] == r;
    case OneStar => assert AllRarities[4] == r;
    case TwoStars => assert AllRarities[5] == r;
    case ThreeStars => assert AllRarities[6] == r;
    case Crown => assert AllRarities[7] == r;
  }

  /** A run of n diamonds is the n-th diamond tier for n from 1 to 4; the
      empty run and longer runs are rejected. */
  lemma DiamondRuns(n: nat)
    ensures 1 <= n <= 4 ==> VisitStr(Repeat(WhiteDiamond, n)) == Ok(DiamondTiers[n - 1])
    ensures (n == 0 || n > 4) ==> VisitStr(Repeat(WhiteDiamond, n)).Err?
  {
    if 1 <= n <= 4 {
      DecodeLiteral(DiamondTiers[n - 1]);
    }
  }

  /** A run of n stars is the n-th star tier for n from 1 to 3; the empty
      run and longer runs are rejected. */
  lemma StarRuns(n: nat)
    ensures 1 <= n <= 3 ==> VisitStr(Repeat(WhiteStar, n)) == Ok(StarTiers[n - 1])
    ensures (n == 0 || n > 3) ==> VisitStr(Repeat(WhiteStar, n)).Err?
  {
    if 1 <= n <= 3 {
      DecodeLiteral(StarTiers[n - 1]);
    } else if n == 4 {
      // the only four-glyph literal is made of diamonds
      assert Repeat(WhiteStar, n)[0] != Accepted[3][0];
    }
  }
}
