# Card tracker load-time data model, in Dafny

This project models the load-time data model of a card-collection tracker for a
collectible card game. It covers:

- the closed `Rarity` enumeration and its glyph decoder, which accepts
  `♢`…`♢♢♢♢`, `☆`…`☆☆☆` and `♕` and rejects anything else with the offending
  string and the accepted list;
- the two pack-membership literals: `|`-separated into an ordered list on a
  card row, and `:`-separated into a set in the format that `src/main.rs`'s
  `Card` uses;
- the fixed per-rarity offering rates of the fourth and fifth card slots;
- the configured offering-rate tables, which are sparse maps with a zero default;
- the load step that gives each expansion its card table. Each expansion's
  card rows are decoded in order and inserted into a fresh map keyed by card
  number, and that map replaces the expansion's `cards` field in place.

Modules follow the source files. `De` holds the visitors' result and error
types. `Split` models Rust's `str::split` on one character, with its inverse
`Join` and an independent definition of a field (`IsField`). `Rarities`
models `rarity.rs` and the enum in `card.rs`, which has the same variants
and the same decoder. `Cards`
models `card.rs`, `Packs` models `packs.rs`, and `OfferingRates` models
`offering_rates.rs`. `Expansions` models `expansion.rs`: a class `Expansion`
whose `cards` field a method overwrites.

The main results:

- For a non-empty literal, the card pack decoder gives the unique
  separator-free decomposition of that literal (`Split.SplitJoin`,
  `Cards.CardPacksUnique`).
- For a non-empty literal, a pack name is in either pack decoder's result
  exactly when it is a field of the literal (`Split.SplitIsFields`). The
  empty literal gives no packs, although `""` is its single field.
- The rarity decoder accepts exactly the accepted list and inverts `Literal`.
- The loop that builds a card table is proved equal to the fold `CardTable`.
  Lemmas about `CardTable` prove the key set, that the last row with a number
  wins, and that the first bad row rejects the whole table.

Facts about the program that shape the model:

- a card's `packs` is an ordered `Vec` that keeps duplicates;
- `Rarity` has exactly the eight tiers above;
- none of the modelled files reads an expansion's `offering_rate_table` name,
  so the model keeps it as a plain string.

## Model

| member | source | states |
|---|---|---|
| `Rarities.VisitStr` | src/rarity.rs:33-51 | accepts a string exactly when it is one of the eight accepted literals, and then returns the variant whose literal it is; any other string, the empty one and longer runs included, gives `UnknownVariant` carrying that string unchanged and the accepted list; every input gets exactly one of the two outcomes |
| `Rarities.DecodeLiteral` | src/card.rs:92-100 | every variant is produced by decoding its own literal (the decoder covers the whole enum) |
| `Rarities.DecodeInjective` | src/rarity.rs:38-45 | two accepted strings that decode to the same variant are equal: no variant has two spellings |
| `Rarities.AcceptedIsArmOrder` | src/card.rs:101-104 | the i-th accepted literal reported on rejection decodes to the i-th variant and is that variant's literal, so the reported list is the success arms' literals in arm order |
| `Rarities.AcceptedDistinct` | src/rarity.rs:46-49 | the reported accepted list has eight entries, no two equal |
| `Rarities.AllRaritiesComplete` | src/card.rs:28-38 | every variant of the enum is in the variant list and its literal is in the accepted list |
| `Rarities.DiamondRuns` | src/rarity.rs:38-41 | a run of n `♢` decodes to the n-th diamond tier for 1 ≤ n ≤ 4; n = 0 and n ≥ 5 are rejected |
| `Rarities.StarRuns` | src/rarity.rs:42-44 | a run of n `☆` decodes to the n-th star tier for 1 ≤ n ≤ 3; n = 0 and n ≥ 4 are rejected |
| `Split.Split` | src/card.rs:22 | splitting on one character never yields an empty list |
| `Split.JoinSplit` | src/card.rs:22 | joining the fields with the separator gives back the string |
| `Split.SplitLength` | src/card.rs:22 | there is exactly one field more than there are separators, empty fields included |
| `Split.SplitSepFree` | src/card.rs:22 | no field contains the separator |
| `Split.SplitJoin` | src/card.rs:22 | splitting the join of a non-empty list of separator-free fields gives that list back, so each string has exactly one such decomposition |
| `Split.SplitIsFields` | src/packs.rs:33 | x is among the split fields exactly when x is a separator-free slice bounded on each side by a separator or an end of the string |
| `Cards.DeserializeCardPacks` | src/card.rs:12-26 | the empty literal gives the empty list and only it does; a non-empty literal gives fields that contain no bar, join with the bar back to the literal, and number one more than its bar characters |
| `Cards.CardPacksUnique` | src/card.rs:19-23 | for a non-empty literal, the pack list is equal to any separator-free list that joins to the literal |
| `Cards.CardPacksAreFields` | src/card.rs:22 | for a non-empty literal, a name is in the pack list exactly when it is a bar-bounded field of the literal |
| `Cards.DeserializeCard` | src/card.rs:3-10 | a row decodes exactly when its rarity literal is accepted, otherwise with the rarity decoder's error; name and number are kept, the rarity is the one whose literal the row gives, a missing pack column gives no packs and a present one the pack decoder's list |
| `Cards.FourthCardOfferingRate` | src/card.rs:42-53 | the fixed fourth-slot rate is total over the rarities, lies in [0, 1), and is 0 exactly for `OneDiamond` |
| `Cards.FifthCardOfferingRate` | src/card.rs:55-67 | the fixed fifth-slot rate is total over the rarities, lies in [0, 1), and is 0 exactly for `OneDiamond` |
| `Packs.VisitStr` | src/packs.rs:26-35 | never fails; the set is empty exactly for the empty literal, so a non-empty literal (even `":"`) gives a non-empty set; no name in it contains `:` |
| `Packs.PacksAreFields` | src/packs.rs:33 | for a non-empty literal, a name is in the set exactly when it is a `:`-bounded field of the literal |
| `Packs.PacksCardinality` | src/packs.rs:33 | the set has at most one name more than the literal has `:` characters |
| `Packs.RepeatedFieldCollapses` | src/packs.rs:30-34 | a field repeated around one `:` is kept once (`"a:a"` gives `{"a"}`, `":"` gives `{""}`) |
| `OfferingRates.OfferingRates.FourthCardOfferingRate` | src/offering_rates.rs:25-27 | returns the stored fourth-slot rate of a rarity that has one, and 0 for one that has none |
| `OfferingRates.OfferingRates.FifthCardOfferingRate` | src/offering_rates.rs:30-32 | returns the stored fifth-slot rate of a rarity that has one, and 0 for one that has none |
| `OfferingRates.SlotsIndependent` | src/offering_rates.rs:24-32 | replacing the fifth-slot map does not change any fourth-slot lookup, and replacing the fourth-slot map does not change any fifth-slot lookup |
| `OfferingRates.LookupsAreProbabilities` | src/offering_rates.rs:8-12 | when every stored rate lies in [0, 1], every lookup does too, absent rarities included |
| `OfferingRates.FixedRates` | src/card.rs:42-67 | a comparison aid, not a program operation: the fixed tables in sparse form leave `OneDiamond` out of both maps |
| `OfferingRates.FixedRatesAgree` | src/card.rs:40-68 | compares the two kinds of rate table (the program never converts one into the other): a zero-default lookup of the sparse form gives the fixed fourth and fifth rates for every rarity |
| `Expansions.Expansion.constructor` | src/expansion.rs:8-16 | a new expansion has the given name and table name, the given pack list or none if it is missing, and an empty card table (the field is not read from the file) |
| `Expansions.DecodeRows` | src/expansion.rs:42-43 | one result per row, in row order; a row decodes exactly when its rarity literal is accepted, and then keeps its name and number; otherwise the result is the rarity decoder's rejection of that literal |
| `Expansions.RejectedPrefix` | src/expansion.rs:43 | once a prefix of the rows is rejected, the whole file is rejected with the same error |
| `Expansions.CardTableAccepts` | src/expansion.rs:42-45 | a table is built exactly when every row decodes |
| `Expansions.CardTableFirstError` | src/expansion.rs:43 | a rejected table carries the error of the first row that did not decode, and every earlier row decoded |
| `Expansions.CardTableKeys` | src/expansion.rs:42-45 | the keys of a built table are the numbers of the decoded cards |
| `Expansions.CardTableLastWins` | src/expansion.rs:44 | every entry is the card of the last row with that number, so each entry's number equals its key |
| `Expansions.RowTableKeys` | src/expansion.rs:40-45 | a card file whose every rarity literal is accepted loads, and the table's key set is the set of numbers in the file's rows |
| `Expansions.RowTableLastWins` | src/expansion.rs:44 | in a card file whose every rarity literal is accepted, each row number is a key of the table, and its entry is the decoded last row carrying that number; no later row carries it |
| `Expansions.BuildCardTable` | src/expansion.rs:40-45 | the inner loop starts from an empty map, inserts each decoded card under its number and stops at the first bad row; its result equals the fold `CardTable` over the decoded rows |
| `Expansions.LoadCards` | src/expansion.rs:27-48 | the load succeeds exactly when every expansion has a card file that loads. On success each expansion's `cards` is the table built from its own file only. On failure the reported failure is the failure of some expansion. In every case each expansion's name, packs and table name are unchanged |

## Left out

- Reading the expansions, offering-rate and card files is not modelled:
  `fs::read_to_string`, `toml::from_str` and `csv::Reader::from_path`. The
  expansions arrive as a map from id to `Expansion` object. The card files
  arrive as a map from expansion id to that file's rows, with each row's
  rarity and packs still as literals. `Expansions.DecodeRows` stands in for
  the card reader: it decodes each row on its own, in file order.
  `OfferingRates::load_from_file` is not modelled.
- A missing card file and a row that does not decode make the program panic.
  The model returns them as a `LoadError` value.
- The reader's own errors are not modelled, for example a malformed CSV line or
  a number that is not an integer. Only the rarity decoder's rejection is.
  Card numbers are unbounded naturals, not 64-bit `usize`.
- The serde wiring is library glue and not modelled: the `Deserialize` impls,
  the visitor trait plumbing and the `expecting` messages.
- `src/main.rs` reads three card files with the `rarity.rs` and `packs.rs`
  types and prints them. It is not part of this model.
- Rates are exact `real` literals, not IEEE `f64`. No claim is made that a
  table sums to 1, because no code states it.
- `HashMap` and `HashSet` are Dafny `map` and `set`. The iteration order over
  expansions is an arbitrary choice (`:|`), like a hash map's.
- The `&self` lookups are functions on an immutable value. They leave both
  maps unchanged by construction, so no lemma states it.
- Rust's ownership keeps every expansion a distinct object. The model
  requires this of its callers (`Distinct`).
- Expansions.LoadCards: on failure it says nothing about which expansions
  already hold their new tables. The source panics at that point, and no later
  code sees that state.
- The model computes no per-pack probability of a new card; none of the
  modelled files computes one.
