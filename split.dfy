/** The string splitting both pack decoders rely on: Rust's `str::split`
    on a single-character separator, with the join that inverts it and
    an independent description of the fields it produces. */
module Split {

  /** The maximal separator-free runs of `s`, in order. Like `str::split`
      it never yields an empty list, and a separator at either end or two
      in a row give empty fields. */
  function Split(s: string, sep: char): (parts: seq<string>)
    ensures |parts| >= 1
    decreases |s|
  {
    if s == [] then [[]]
    else
      var rest := Split(s[1..], sep);
      if s[0] == sep then [[]] + rest
      else [[s[0]] + rest[0]] + rest[1..]
  }

  /** The fields of `parts` separated by one `sep` each; `[]` for no fields. */
  function Join(parts: seq<string>, sep: char): string
  {
    if |parts| == 0 then []
    else if |parts| == 1 then parts[0]
    else parts[0] + [sep] + Join(parts[1..], sep)
  }

  /** The number of occurrences of `c` in `s`. */
  function Count(s: string, c: char): nat
  {
    if s == [] then 0 else (if s[0] == c then 1 else 0) + Count(s[1..], c)
  }

  predicate SepFree(parts: seq<string>, sep: char)
  {
    forall k :: 0 <= k < |parts| ==> sep !in parts[k]
  }

  /** `x` is a field of `s`: a separator-free slice of `s` bounded on each
      side by a separator or by an end of `s`. */
  ghost predicate IsField(s: string, sep: char, x: string)
  {
    && sep !in x
    && exists i, j :: && 0 <= i <= j <= |s| && s[i..j] == x
                      && (i == 0 || s[i - 1] == sep)
                      && (j == |s| || s[j] == sep)
  }

  /** Joining the fields with the separator gives back the string. */
  lemma {:induction false} JoinSplit(s: string, sep: char)
    ensures Join(Split(s, sep), sep) == s
    decreases |s|
  {
    if s != [] {
      var rest := Split(s[1..], sep);
      JoinSplit(s[1..], sep);
      if s[0] == sep {
        assert ([[]] + rest)[1..] == rest;
      } else if |rest| > 1 {
        var parts := [[s[0]] + rest[0]] + rest[1..];
        assert parts[1..] == rest[1..];
        assert Join(rest, sep) == rest[0] + [sep] + Join(rest[1..], sep);
        assert s == [s[0]] + s[1..];
      } else {
        assert s == [s[0]] + s[1..];
      }
    }
  }

  /** There is one field more than there are separators. */
  lemma {:induction false} SplitLength(s: string, sep: char)
    ensures |Split(s, sep)| == Count(s, sep) + 1
    decreases |s|
  {
    if s != [] {
      SplitLength(s[1..], sep);
    }
  }

  /** No field contains the separator. */
  lemma {:induction false} SplitSepFree(s: string, sep: char)
    ensures SepFree(Split(s, sep), sep)
    decreases |s|
  {
    if s != [] {
      SplitSepFree(s[1..], sep);
      var rest := Split(s[1..], sep);
      if s[0] != sep {
        assert sep !in rest[0];
        assert sep !in [s[0]] + rest[0];
        var parts := [[s[0]] + rest[0]] + rest[1..];
        forall k | 0 <= k < |parts| ensures sep !in parts[k] {
          if k > 0 { assert parts[k] == rest[k]; }
        }
      }
    }
  }

  /** A string without the separator is a single field. */
  lemma {:induction false} SplitOfSepFree(x: string, sep: char)
    requires sep !in x
    ensures Split(x, sep) == [x]
    decreases |x|
  {
    if x != [] {
      SplitOfSepFree(x[1..], sep);
      assert x == [x[0]] + x[1..];
    }
  }

  /** Splitting distributes over a separator. */
  lemma {:induction false} SplitConcat(a: string, b: string, sep: char)
    ensures Split(a + [sep] + b, sep) == Split(a, sep) + Split(b, sep)
    decreases |a|
  {
    var s := a + [sep] + b;
    if a == [] {
      assert s[1..] == b;
    } else {
      assert s[1..] == a[1..] + [sep] + b;
      SplitConcat(a[1..], b, sep);
    }
  }

  lemma {:induction false} JoinConcat(p: seq<string>, q: seq<string>, sep: char)
    requires |p| >= 1 && |q| >= 1
    ensures Join(p + q, sep) == Join(p, sep) + [sep] + Join(q, sep)
    decreases |p|
  {
    if |p| > 1 {
      assert (p + q)[1..] == p[1..] + q;
      JoinConcat(p[1..], q, sep);
    } else {
      assert (p + q)[1..] == q;
    }
  }

  /** Split is the inverse of Join on separator-free fields: every string
      has exactly one such decomposition. */
  lemma {:induction false} SplitJoin(parts: seq<string>, sep: char)
    requires |parts| >= 1 && SepFree(parts, sep)
    ensures Split(Join(parts, sep), sep) == parts
    decreases |parts|
  {
    assert sep !in parts[0];
    SplitOfSepFree(parts[0], sep);
    if |parts| > 1 {
      var rest := parts[1..];
      assert SepFree(rest, sep) by {
        forall k | 0 <= k < |rest| ensures sep !in rest[k] { assert rest[k] == parts[k + 1]; }
      }
      SplitJoin(rest, sep);
      SplitConcat(parts[0], Join(rest, sep), sep);
      assert parts == [parts[0]] + rest;
    }
  }

  /** Every field Split produces is a field of the string. */
  lemma SplitFieldsAreFields(s: string, sep: char, k: nat)
    requires k < |Split(s, sep)|
    ensures IsField(s, sep, Split(s, sep)[k])
  {
    var parts := Split(s, sep);
    var x := parts[k];
    JoinSplit(s, sep);
    SplitSepFree(s, sep);
    var P, Q := parts[..k], parts[k + 1..];
    assert parts == P + ([x] + Q);
    var tail := if Q == [] then [] else [sep] + Join(Q, sep);
    assert Join([x] + Q, sep) == x + tail by {
      if Q != [] { assert ([x] + Q)[1..] == Q; }
    }
    var head := if P == [] then [] else Join(P, sep) + [sep];
    assert s == head + x + tail by {
      if P != [] { JoinConcat(P, [x] + Q, sep); }
    }
    var i, j := |head|, |head| + |x|;
    assert s[i..j] == x;
    assert i == 0 || s[i - 1] == sep;
    assert j == |s| || s[j] == sep;
  }

  /** A separator-free prefix that ends at a separator or at the end is
      the first field. */
  lemma FirstField(x: string, t: string, sep: char)
    requires sep !in x
    requires t == [] || t[0] == sep
    ensures Split(x + t, sep)[0] == x
  {
    SplitOfSepFree(x, sep);
    if t == [] {
      assert x + t == x;
    } else {
      assert x + t == x + [sep] + t[1..];
      SplitConcat(x, t[1..], sep);
    }
  }

  /** Every field of the string is among the fields Split produces. */
  lemma FieldsAreSplitFields(s: string, sep: char, x: string, i: nat, j: nat)
    requires sep !in x
    requires i <= j <= |s| && s[i..j] == x
    requires i == 0 || s[i - 1] == sep
    requires j == |s| || s[j] == sep
    ensures x in Split(s, sep)
  {
    var t := s[j..];
    assert s[i..] == x + t;
    FirstField(x, t, sep);
    if i > 0 {
      var pre := s[..i - 1];
      assert s == pre + [sep] + s[i..] by {
        assert s == s[..i] + s[i..];
        assert s[..i] == pre + [sep];
      }
      SplitConcat(pre, s[i..], sep);
      assert Split(s, sep)[|Split(pre, sep)|] == x;
    } else {
      assert s == s[i..];
    }
  }

  /** The fields Split produces are exactly the fields of the string. */
  lemma SplitIsFields(s: string, sep: char, x: string)
    ensures x in Split(s, sep) <==> IsField(s, sep, x)
  {
    if x in Split(s, sep) {
      var k :| 0 <= k < |Split(s, sep)| && Split(s, sep)[k] == x;
      SplitFieldsAreFields(s, sep, k);
    }
    if IsField(s, sep, x) {
      var i, j :| && 0 <= i <= j <= |s| && s[i..j] == x
                  && (i == 0 || s[i - 1] == sep)
                  && (j == |s| || s[j] == sep);
      FieldsAreSplitFields(s, sep, x, i, j);
    }
  }
}
