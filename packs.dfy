/** The set of packs a card belongs to, read from a literal in the
    `:`-separated format that `src/main.rs`'s `Card` uses. */
module Packs {
  import opened De
  import Split

  datatype Packs = Packs(names: set<string>)

  const PackSeparator: char := ':'

  /** The pack set of a literal: empty for the empty literal, otherwise the
      fields between `:` separators, with repeated fields kept once.
      Reading a pack set never fails. */
  function VisitStr(s: string): (r: Result<Packs>)
    ensures r.Ok?
    ensures s == [] <==> r.value.names == {}
    ensures forall x :: x in r.value.names ==> PackSeparator !in x
  {
    if s == [] then Ok(Packs({}))
    else
      var fields := Split.Split(s, PackSeparator);
      Split.SplitSepFree(s, PackSeparator);
      var names := set x | x in fields;
      assert fields[0] in names;
      Ok(Packs(names))
  }

  /** For a non-empty literal, a name is in the set exactly when it is one
      of the literal's fields. */
  lemma PacksAreFields(s: string, x: string)
    requires s != []
    ensures x in VisitStr(s).value.names <==> Split.IsField(s, PackSeparator, x)
  {
    Split.SplitIsFields(s, PackSeparator, x);
  }

  /** The set has at most one name more than the literal has separators. */
  lemma PacksCardinality(s: string)
    ensures |VisitStr(s).value.names| <= Split.Count(s, PackSeparator) + 1
  {
    if s != [] {
      Split.SplitLength(s, PackSeparator);
      SetOfSeqCardinality(Split.Split(s, PackSeparator));
    }
  }

  lemma {:induction false} SetOfSeqCardinality(q: seq<string>)
    ensures |set x | x in q| <= |q|
    decreases |q|
  {
    if q != [] {
      var last := q[|q| - 1];
      var init := q[..|q| - 1];
      SetOfSeqCardinality(init);
      assert (set x | x in q) == (set x | x in init) + {last} by {
        assert q == init + [last];
      }
    }
  }

  /** A field repeated around one separator is kept once: `"a:a"` gives
      `{"a"}`, and `":"` gives `{""}`. */
  lemma RepeatedFieldCollapses(x: string)
    requires PackSeparator !in x
    ensures VisitStr(x + [PackSeparator] + x).value.names == {x}
  {
    Split.SplitOfSepFree(x, PackSeparator);
    Split.SplitConcat(x, x, PackSeparator);
    assert Split.Split(x + [PackSeparator] + x, PackSeparator) == [x, x];
  }
}
