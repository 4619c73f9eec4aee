/** `average_code_length` over character counts instead of probabilities:
    the number of bits the encoded text takes. */
module CodeLength {
  import opened Alphabet
  import opened Codebooks
  import opened Codec

  /** The bits spent on symbol `k`: its count times its code length. */
  function Cost(counts: map<char, nat>, cb: Codebook, k: char): nat
    requires k in counts
  {
    if k in cb then counts[k] * |cb[k]| else 0
  }

  /** The sum of count times code length over the symbols of a table. */
  ghost function TotalCodeLength(counts: map<char, nat>, cb: Codebook): (total: nat)
    ensures forall k :: k in counts ==> Cost(counts, cb, k) <= total
  {
    if counts == map[] then 0
    else
      var k :| k in counts;
      CostsKept(counts, cb, k);
      Cost(counts, cb, k) + TotalCodeLength(counts - {k}, cb)
  }

  /** Taking one symbol out of the table leaves the others' costs. */
  lemma CostsKept(counts: map<char, nat>, cb: Codebook, k: char)
    ensures forall j :: j in counts && j != k ==> j in counts - {k} && Cost(counts - {k}, cb, j) == Cost(counts, cb, j)
  {
  }

  lemma {:induction false} TotalCodeLengthRemove(counts: map<char, nat>, cb: Codebook, k: char)
    requires k in counts
    ensures TotalCodeLength(counts, cb) == Cost(counts, cb, k) + TotalCodeLength(counts - {k}, cb)
    decreases |counts|
  {
    var j :| j in counts && TotalCodeLength(counts, cb) == Cost(counts, cb, j) + TotalCodeLength(counts - {j}, cb);
    if j != k {
      var mj, mk := counts - {j}, counts - {k};
      assert |mj| < |counts| by { assert mj.Keys == counts.Keys - {j}; }
      assert |mk| < |counts| by { assert mk.Keys == counts.Keys - {k}; }
      TotalCodeLengthRemove(mj, cb, k);
      TotalCodeLengthRemove(mk, cb, j);
      assert mj - {k} == mk - {j};
      assert Cost(mj, cb, k) == Cost(counts, cb, k) && Cost(mk, cb, j) == Cost(counts, cb, j);
    }
  }

  /** Counting one more occurrence of `c` adds the length of its code. */
  lemma CountOneMore(counts: map<char, nat>, cb: Codebook, c: char)
    ensures TotalCodeLength(counts[c := (if c in counts then counts[c] else 0) + 1], cb)
         == TotalCodeLength(counts, cb) + (if c in cb then |cb[c]| else 0)
  {
    var n := if c in counts then counts[c] else 0;
    var more := counts[c := n + 1];
    TotalCodeLengthRemove(more, cb, c);
    assert more - {c} == counts - {c};
    CostOneMore(counts, cb, c, n);
    WithoutC(counts, cb, c, n);
  }

  lemma CostOneMore(counts: map<char, nat>, cb: Codebook, c: char, n: nat)
    ensures Cost(counts[c := n + 1], cb, c) == n * (if c in cb then |cb[c]| else 0) + (if c in cb then |cb[c]| else 0)
  {
    if c in cb {
      var L := |cb[c]|;
      assert (n + 1) * L == n * L + L;
    }
  }

  lemma WithoutC(counts: map<char, nat>, cb: Codebook, c: char, n: nat)
    requires n == if c in counts then counts[c] else 0
    ensures TotalCodeLength(counts, cb) == n * (if c in cb then |cb[c]| else 0) + TotalCodeLength(counts - {c}, cb)
  {
    if c in counts {
      TotalCodeLengthRemove(counts, cb, c);
    } else {
      assert counts - {c} == counts;
    }
  }

  /** The encoded text is as long as the counts of its characters weighted
      by their code lengths, for a codebook over the alphabet. */
  lemma {:induction false} EncodedLength(text: string, cb: Codebook)
    requires forall c :: c in cb ==> InAlphabet(c)
    ensures |Encoding(text, cb)| == TotalCodeLength(AnalyzeText(text), cb)
  {
    if text != [] {
      var init, c := text[..|text| - 1], text[|text| - 1];
      EncodedLength(init, cb);
      if InAlphabet(c) {
        CountOneMore(AnalyzeText(init), cb, c);
      }
    } else {
      assert AnalyzeText(text) == map[];
    }
  }
}
