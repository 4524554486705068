/**
 The quote-doubling step applied to the `message` field of a submission
 before it is written between double quotes: every `"` becomes `""` and
 every other character is kept, in order. This is the escaping rule of
 RFC 4180, section 2, rule 7.

 `UnescapeQuotes` is the specification-side inverse (collapse each `""`
 back to `"`), and `QuotesPaired` describes exactly the strings the
 escape can produce.
 */
module QuoteEscape {
  import opened SeqFacts

  const Quote: char := '"'

  /* The characters of `s` other than `"`, in their original order. */
  ghost function NonQuotes(s: string): string
  {
    if s == [] then []
    else (if s[0] == Quote then [] else [s[0]]) + NonQuotes(s[1..])
  }

  /* How many times `c` occurs in `s`. */
  ghost function Occurrences(s: string, c: char): nat
  {
    if s == [] then 0
    else (if s[0] == c then 1 else 0) + Occurrences(s[1..], c)
  }

  lemma {:induction false} OccurrencesAppend(a: string, b: string, c: char)
    ensures Occurrences(a + b, c) == Occurrences(a, c) + Occurrences(b, c)
  {
    if a == [] {
      assert a + b == b;
    } else {
      assert (a + b)[0] == a[0];
      assert (a + b)[1..] == a[1..] + b;
      OccurrencesAppend(a[1..], b, c);
    }
  }

  lemma {:induction false} OccurrencesMembership(s: string, c: char)
    ensures c in s <==> Occurrences(s, c) > 0
  {
    if s != [] {
      OccurrencesMembership(s[1..], c);
      assert s == [s[0]] + s[1..];
    }
  }

  lemma {:induction false} NonQuotesAppend(a: string, b: string)
    ensures NonQuotes(a + b) == NonQuotes(a) + NonQuotes(b)
  {
    if a == [] {
      assert a + b == b;
    } else {
      assert (a + b)[0] == a[0];
      assert (a + b)[1..] == a[1..] + b;
      NonQuotesAppend(a[1..], b);
    }
  }

  /* Replace every `"` of `s` by `""`; the global `replace(/"/g, '""')`. */
  function EscapeQuotes(s: string): (r: string)
    ensures |r| == |s| + Occurrences(s, Quote)
    decreases |s|
  {
    if s == [] then []
    else
      var head := if s[0] == Quote then [Quote, Quote] else [s[0]];
      var tail := EscapeQuotes(s[1..]);
      assert s == [s[0]] + s[1..];
      head + tail
  }

  /* A message with no quote is embedded unchanged, and only such a one. */
  lemma {:induction false} EscapeFixpoint(s: string)
    ensures EscapeQuotes(s) == s <==> Quote !in s
    decreases |s|
  {
    OccurrencesMembership(s, Quote);
    if s != [] && Quote !in s {
      EscapeUnfold(s);
      EscapeFixpoint(s[1..]);
      assert s == [s[0]] + s[1..];
    }
  }

  /* Apart from the doubled quotes, the escape keeps every character in
     order: dropping the quotes from input and output gives the same text. */
  lemma {:induction false} EscapeKeepsOtherCharacters(s: string)
    ensures NonQuotes(EscapeQuotes(s)) == NonQuotes(s)
    decreases |s|
  {
    if s != [] {
      var head := if s[0] == Quote then [Quote, Quote] else [s[0]];
      EscapeUnfold(s);
      EscapeKeepsOtherCharacters(s[1..]);
      NonQuotesAppend(head, EscapeQuotes(s[1..]));
    }
  }

  /* Each `"` occurs twice as often after the escape; every other character
     occurs exactly as often. */
  lemma {:induction false} EscapeCounts(s: string, c: char)
    ensures Occurrences(EscapeQuotes(s), c) == (if c == Quote then 2 else 1) * Occurrences(s, c)
    decreases |s|
  {
    if s != [] {
      var head := if s[0] == Quote then [Quote, Quote] else [s[0]];
      EscapeUnfold(s);
      EscapeCounts(s[1..], c);
      OccurrencesAppend(head, EscapeQuotes(s[1..]), c);
    }
  }

  /* Escaping distributes over concatenation: the replacement is local. */
  lemma {:induction false} EscapeAppend(a: string, b: string)
    ensures EscapeQuotes(a + b) == EscapeQuotes(a) + EscapeQuotes(b)
    decreases |a|
  {
    if a == [] {
      assert a + b == b;
    } else {
      var ab, x := a + b, a[1..];
      assert ab[0] == a[0] && ab[1..] == x + b;
      EscapeUnfold(a);
      EscapeUnfold(ab);
      EscapeAppend(x, b);
      var head := if a[0] == Quote then [Quote, Quote] else [a[0]];
      var ex, eb := EscapeQuotes(x), EscapeQuotes(b);
      assert EscapeQuotes(ab) == head + (ex + eb);
      assert EscapeQuotes(a) == head + ex;
      ConcatAssoc(head, ex, eb);
    }
  }

  /* Every `"` of `s` is the first of an adjacent `""` pair, reading left to
     right; there is no lone quote. */
  ghost predicate QuotesPaired(s: string)
    decreases |s|
  {
    if s == [] then true
    else if s[0] != Quote then QuotesPaired(s[1..])
    else |s| >= 2 && s[1] == Quote && QuotesPaired(s[2..])
  }

  /* Collapse each `""` to `"`, reading left to right. */
  ghost function UnescapeQuotes(s: string): string
    decreases |s|
  {
    if s == [] then []
    else if |s| >= 2 && s[0] == Quote && s[1] == Quote then [Quote] + UnescapeQuotes(s[2..])
    else [s[0]] + UnescapeQuotes(s[1..])
  }

  /* The head of `EscapeQuotes(m)` for non-empty `m`. */
  lemma EscapeUnfold(m: string)
    requires m != []
    ensures m[0] == Quote ==> EscapeQuotes(m) == [Quote, Quote] + EscapeQuotes(m[1..])
    ensures m[0] != Quote ==> EscapeQuotes(m) == [m[0]] + EscapeQuotes(m[1..])
  {
  }

  /* Round trip: collapsing the pairs of an escaped message gives it back. */
  lemma {:induction false} UnescapeEscape(m: string)
    ensures UnescapeQuotes(EscapeQuotes(m)) == m
    decreases |m|
  {
    if m != [] {
      var e := EscapeQuotes(m);
      EscapeUnfold(m);
      UnescapeEscape(m[1..]);
      if m[0] == Quote {
        assert e[2..] == EscapeQuotes(m[1..]);
      } else {
        assert e[1..] == EscapeQuotes(m[1..]);
      }
      assert m == [m[0]] + m[1..];
    }
  }

  /* The escape only produces strings without a lone quote. */
  lemma {:induction false} EscapeIsPaired(m: string)
    ensures QuotesPaired(EscapeQuotes(m))
    decreases |m|
  {
    if m != [] {
      var e := EscapeQuotes(m);
      EscapeUnfold(m);
      EscapeIsPaired(m[1..]);
      if m[0] == Quote {
        assert e[2..] == EscapeQuotes(m[1..]);
      } else {
        assert e[1..] == EscapeQuotes(m[1..]);
      }
    }
  }

  /* Conversely, a string without a lone quote is the escape of its collapse. */
  lemma {:induction false} EscapeUnescape(s: string)
    requires QuotesPaired(s)
    ensures EscapeQuotes(UnescapeQuotes(s)) == s
    decreases |s|
  {
    if s != [] {
      var u := UnescapeQuotes(s);
      if s[0] == Quote {
        EscapeUnescape(s[2..]);
        assert u == [Quote] + UnescapeQuotes(s[2..]);
        EscapeUnfold(u);
        assert u[1..] == UnescapeQuotes(s[2..]);
        assert s == [Quote, Quote] + s[2..];
      } else {
        EscapeUnescape(s[1..]);
        assert u == [s[0]] + UnescapeQuotes(s[1..]);
        EscapeUnfold(u);
        assert u[1..] == UnescapeQuotes(s[1..]);
        assert s == [s[0]] + s[1..];
      }
    }
  }

  /* The strings the escape can produce are exactly those without a lone quote. */
  lemma PairedIffEscaped(s: string)
    ensures QuotesPaired(s) <==> exists m :: EscapeQuotes(m) == s
  {
    if QuotesPaired(s) {
      EscapeUnescape(s);
    }
    if exists m :: EscapeQuotes(m) == s {
      var m :| EscapeQuotes(m) == s;
      EscapeIsPaired(m);
    }
  }

  /* Two different messages never escape to the same text. */
  lemma EscapeInjective(a: string, b: string)
    requires EscapeQuotes(a) == EscapeQuotes(b)
    ensures a == b
  {
    UnescapeEscape(a);
    UnescapeEscape(b);
  }
}
