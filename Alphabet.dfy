/** The fixed symbol alphabet, the input filter of `read_file` and the
    character counts of `analyze_text`. */
module Alphabet {

  /** Space, the lower-case letters and the decimal digits, in this order. */
  const ALPHABET: string := " abcdefghijklmnopqrstuvwxyz0123456789"

  /** Membership in `ALPHABET`, written as character ranges. */
  predicate InAlphabet(c: char) {
    c == ' ' || 'a' <= c <= 'z' || '0' <= c <= '9'
  }

  /** The ranges are exactly the characters of `ALPHABET`. */
  lemma AlphabetMembers(c: char)
    ensures InAlphabet(c) <==> c in ALPHABET
  {
    if InAlphabet(c) {
      RangesInAlphabet(c);
    } else if c in ALPHABET {
      var i :| 0 <= i < |ALPHABET| && ALPHABET[i] == c;
      AlphabetInRanges(i);
    }
  }

  /** Each character of the ranges occurs in `ALPHABET`. */
  lemma RangesInAlphabet(c: char)
    requires InAlphabet(c)
    ensures c in ALPHABET
  {
    if 'a' <= c <= 'z' {
      assert ALPHABET[c as int - 'a' as int + 1] == c;
    } else if '0' <= c <= '9' {
      assert ALPHABET[c as int - '0' as int + 27] == c;
    } else {
      assert ALPHABET[0] == c;
    }
  }

  /** Each character of `ALPHABET` lies in one of the ranges. */
  lemma AlphabetInRanges(i: nat)
    requires i < |ALPHABET|
    ensures InAlphabet(ALPHABET[i])
  {
    if i == 0 {
      assert ALPHABET[0] == ' ';
    } else if i <= 26 {
      var c := ('a' as int + i - 1) as char;
      assert ALPHABET[c as int - 'a' as int + 1] == c;
    } else {
      var c := ('0' as int + i - 27) as char;
      assert ALPHABET[c as int - '0' as int + 27] == c;
    }
  }

  /** Every character of `s` belongs to the alphabet. */
  predicate AllInAlphabet(s: string) {
    forall i :: 0 <= i < |s| ==> InAlphabet(s[i])
  }

  /** The characters of `s` that belong to the alphabet, in their order. */
  function Filter(s: string): (r: string)
    ensures AllInAlphabet(r)
    ensures |r| <= |s|
  {
    if s == [] then []
    else
      var r' := Filter(s[..|s| - 1]);
      if InAlphabet(s[|s| - 1]) then r' + [s[|s| - 1]] else r'
  }

  /** The filter keeps every occurrence of an alphabet character and no
      other character. */
  lemma {:induction false} FilterCounts(s: string)
    ensures forall c :: InAlphabet(c) ==> multiset(Filter(s))[c] == multiset(s)[c]
    ensures forall c :: !InAlphabet(c) ==> multiset(Filter(s))[c] == 0
  {
    if s != [] {
      var init, last := s[..|s| - 1], s[|s| - 1];
      FilterCounts(init);
      assert s == init + [last];
      assert multiset(s) == multiset(init) + multiset{last};
    }
  }

  /** The filter keeps characters in their order: filtering a
      concatenation filters each part. */
  lemma {:induction false} FilterConcat(a: string, b: string)
    ensures Filter(a + b) == Filter(a) + Filter(b)
    decreases |b|
  {
    if b == [] {
      assert a + b == a;
    } else {
      var init, last := b[..|b| - 1], b[|b| - 1];
      assert (a + b)[..|a + b| - 1] == a + init;
      assert (a + b)[|a + b| - 1] == last;
      FilterConcat(a, init);
    }
  }

  /** A single character is kept exactly when it is in the alphabet. */
  lemma FilterOne(c: char)
    ensures Filter([c]) == if InAlphabet(c) then [c] else []
  {
    assert [c][..0] == [];
  }

  /** Filtering is the identity on text that is already inside the alphabet. */
  lemma {:induction false} FilterKeepsAlphabetText(s: string)
    requires AllInAlphabet(s)
    ensures Filter(s) == s
  {
    if s != [] {
      var init, last := s[..|s| - 1], s[|s| - 1];
      assert AllInAlphabet(init) by {
        forall i | 0 <= i < |init| ensures InAlphabet(init[i]) {
          assert init[i] == s[i];
        }
      }
      FilterKeepsAlphabetText(init);
      assert InAlphabet(last);
    }
  }

  /** Filtering twice is filtering once. */
  lemma FilterIdempotent(s: string)
    ensures Filter(Filter(s)) == Filter(s)
  {
    FilterKeepsAlphabetText(Filter(s));
  }

  /** The string part of `read_file`: keep the alphabet characters, then
      keep only the first `limit` of them when `limit` is positive. */
  function ReadFilter(content: string, limit: int): (r: string)
    ensures AllInAlphabet(r)
    ensures r <= Filter(content)
    ensures limit <= 0 ==> r == Filter(content)
    ensures limit > 0 ==> |r| == if limit < |Filter(content)| then limit else |Filter(content)|
  {
    var kept := Filter(content);
    if limit > 0 then (if limit < |kept| then kept[..limit] else kept) else kept
  }

  /** `analyze_text` before the division by the total: the `Counter` of the
      alphabet characters of `text`. */
  /** A text has no more distinct symbols than characters. */
  lemma {:induction false} FewerSymbolsThanChars(text: string)
    ensures |AnalyzeText(text)| <= |text|
  {
    if text != [] {
      var init := text[..|text| - 1];
      FewerSymbolsThanChars(init);
      assert AnalyzeText(text).Keys <= AnalyzeText(init).Keys + {text[|text| - 1]};
      SubsetSize(AnalyzeText(text).Keys, AnalyzeText(init).Keys + {text[|text| - 1]});
    }
  }

  lemma SubsetSize<T>(a: set<T>, b: set<T>)
    requires a <= b
    ensures |a| <= |b|
  {
    assert b == a + (b - a);
  }

  function AnalyzeText(text: string): (counts: map<char, nat>)
    ensures forall c :: c in counts <==> c in text && InAlphabet(c)
    ensures forall c :: c in counts ==> counts[c] == multiset(text)[c]
  {
    if text == [] then map[]
    else
      var init := text[..|text| - 1];
      var c := text[|text| - 1];
      var counts := AnalyzeText(init);
      assert text == init + [c];
      if InAlphabet(c) then counts[c := (if c in counts then counts[c] else 0) + 1]
      else counts
  }
}
