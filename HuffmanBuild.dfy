/** `build_huffman_code`: the greedy merge over a heap of groups of
    (symbol, code) pairs. */
module HuffmanBuild {
  import opened Wrappers
  import opened Codebooks

  /** One `[symbol, code]` pair of a heap entry. */
  datatype Entry = Entry(symbol: char, code: string)

  /** One heap entry `[weight, pair, pair, ...]`: a subtree with its weight
      and the codes of its leaves relative to the subtree's root. */
  datatype HeapItem = HeapItem(weight: nat, entries: seq<Entry>)

  /** The sum of the weights of a frequency table. */
  ghost function MapSum(m: map<char, nat>): nat
  {
    if m == map[] then 0
    else
      var k :| k in m;
      m[k] + MapSum(m - {k})
  }

  lemma {:induction false} MapSumRemove(m: map<char, nat>, k: char)
    requires k in m
    ensures MapSum(m) == m[k] + MapSum(m - {k})
    decreases |m|
  {
    var j :| j in m && MapSum(m) == m[j] + MapSum(m - {j});
    if j != k {
      var mj, mk := m - {j}, m - {k};
      assert |mj| < |m| by { assert mj.Keys == m.Keys - {j}; }
      assert |mk| < |m| by { assert mk.Keys == m.Keys - {k}; }
      MapSumRemove(mj, k);
      MapSumRemove(mk, j);
      assert mj - {k} == mk - {j};
    }
  }

  function TotalWeight(heap: seq<HeapItem>): nat
  {
    if heap == [] then 0 else TotalWeight(heap[..|heap| - 1]) + heap[|heap| - 1].weight
  }

  function Symbols(entries: seq<Entry>): (r: seq<char>)
    ensures |r| == |entries|
    ensures forall i :: 0 <= i < |entries| ==> r[i] == entries[i].symbol
  {
    seq(|entries|, i requires 0 <= i < |entries| => entries[i].symbol)
  }

  /** The symbols of every heap entry, counted with repetition. */
  ghost function SymbolBag(heap: seq<HeapItem>): multiset<char>
  {
    if heap == [] then multiset{} else SymbolBag(heap[..|heap| - 1]) + multiset(Symbols(heap[|heap| - 1].entries))
  }

  lemma {:induction false} TotalWeightConcat(a: seq<HeapItem>, b: seq<HeapItem>)
    ensures TotalWeight(a + b) == TotalWeight(a) + TotalWeight(b)
    ensures SymbolBag(a + b) == SymbolBag(a) + SymbolBag(b)
  {
    if b != [] {
      assert (a + b)[..|a + b| - 1] == a + b[..|b| - 1];
      TotalWeightConcat(a, b[..|b| - 1]);
    } else {
      assert a + b == a;
    }
  }

  /** Taking out the entry at `i` takes out its weight and its symbols. */
  lemma RemoveAt(heap: seq<HeapItem>, i: nat)
    requires i < |heap|
    ensures TotalWeight(heap) == TotalWeight(heap[..i] + heap[i + 1..]) + heap[i].weight
    ensures SymbolBag(heap) == SymbolBag(heap[..i] + heap[i + 1..]) + multiset(Symbols(heap[i].entries))
  {
    SplitAt(heap, i);
    RemoveMiddle(heap[..i], heap[i], heap[i + 1..]);
  }

  lemma SplitAt<T>(s: seq<T>, i: nat)
    requires i < |s|
    ensures s == s[..i] + [s[i]] + s[i + 1..]
  {
  }

  lemma RemoveMiddle(left: seq<HeapItem>, item: HeapItem, right: seq<HeapItem>)
    ensures TotalWeight(left + [item] + right) == TotalWeight(left + right) + item.weight
    ensures SymbolBag(left + [item] + right) == SymbolBag(left) + multiset(Symbols(item.entries)) + SymbolBag(right)
    ensures SymbolBag(left + right) == SymbolBag(left) + SymbolBag(right)
  {
    TotalWeightConcat(left + [item], right);
    TotalWeightConcat(left, [item]);
    TotalWeightConcat(left, right);
    SingleItem(item);
  }

  lemma SingleItem(item: HeapItem)
    ensures TotalWeight([item]) == item.weight
    ensures SymbolBag([item]) == multiset(Symbols(item.entries))
  {
    assert [item][..0] == [];
  }

  /** The index a min-heap pops: the first entry of least weight. */
  function MinIndex(heap: seq<HeapItem>): (i: nat)
    requires |heap| > 0
    ensures i < |heap|
    ensures forall j :: 0 <= j < |heap| ==> heap[i].weight <= heap[j].weight
    ensures forall j :: 0 <= j < i ==> heap[j].weight > heap[i].weight
  {
    if |heap| == 1 then 0
    else
      var k := MinIndex(heap[..|heap| - 1]);
      if heap[|heap| - 1].weight < heap[k].weight then |heap| - 1 else k
  }

  /** The codes of one group are binary and mutually prefix-free; a group
      that was never merged is one pair with the empty code, a merged group
      has only non-empty codes, and no code has as many digits as the group
      has pairs (each merge adds one digit and at least one pair). */
  ghost predicate ItemValid(item: HeapItem)
  {
    ValidGroup(item.entries)
  }

  ghost predicate ValidGroup(e: seq<Entry>)
  {
    && |e| >= 1
    && (forall a :: 0 <= a < |e| ==> IsBinary(e[a].code))
    && (forall a, b :: 0 <= a < |e| && 0 <= b < |e| && a != b ==> !(e[a].code <= e[b].code))
    && (|e| == 1 ==> e[0].code == "")
    && (|e| >= 2 ==> forall a :: 0 <= a < |e| ==> e[a].code != "")
    && (forall a :: 0 <= a < |e| ==> |e[a].code| < |e|)
  }

  /** A heap entry as the merge loop keeps it: its codes binary and
      mutually prefix-free. */
  type Group = item: HeapItem | ItemValid(item) witness HeapItem(0, [Entry(' ', "")])

  /** `out` is `entries` with `bit` put in front of every code. */
  ghost predicate PrefixedBy(out: seq<Entry>, entries: seq<Entry>, bit: char)
  {
    && |out| == |entries|
    && forall k :: 0 <= k < |out| ==> out[k] == Entry(entries[k].symbol, [bit] + entries[k].code)
  }

  /** Lines 22-25: put `bit` in front of the code of every pair of a group. */
  method PrefixAll(entries: seq<Entry>, bit: char) returns (out: seq<Entry>)
    ensures PrefixedBy(out, entries, bit)
  {
    out := [];
    var k := 0;
    while k < |entries|
      invariant 0 <= k <= |entries|
      invariant PrefixedBy(out, entries[..k], bit)
    {
      out := out + [Entry(entries[k].symbol, [bit] + entries[k].code)];
      k := k + 1;
    }
  }

  lemma PrefixedCodes(x: string, y: string, bit: char)
    ensures ([bit] + x <= [bit] + y) == (x <= y)
  {
    if x <= y {
      assert [bit] + y == [bit] + x + y[|x|..];
    }
    if [bit] + x <= [bit] + y {
      assert x == ([bit] + x)[1..] && y[..|x|] == ([bit] + y)[1..|x| + 1];
    }
  }

  /** One group with `bit` put in front of every code: its codes are
      binary, non-empty, start with `bit` and stay mutually prefix-free. */
  lemma PrefixedGroup(g: seq<Entry>, out: seq<Entry>, bit: char)
    requires bit == '0' || bit == '1'
    requires ValidGroup(g) && PrefixedBy(out, g, bit)
    ensures forall a :: 0 <= a < |out| ==> IsBinary(out[a].code) && out[a].code != [] && out[a].code[0] == bit
    ensures forall a, b :: 0 <= a < |out| && 0 <= b < |out| && a != b ==> !(out[a].code <= out[b].code)
  {
    forall a, b | 0 <= a < |out| && 0 <= b < |out| && a != b
      ensures !(out[a].code <= out[b].code)
    {
      PrefixedCodes(g[a].code, g[b].code, bit);
    }
  }

  lemma SymbolsPrefixed(out: seq<Entry>, g: seq<Entry>, bit: char)
    requires PrefixedBy(out, g, bit)
    ensures Symbols(out) == Symbols(g)
  {
    var x, y := Symbols(out), Symbols(g);
    forall i | 0 <= i < |x| ensures x[i] == y[i] {
      assert out[i].symbol == g[i].symbol;
    }
  }

  lemma SymbolsConcat(a: seq<Entry>, b: seq<Entry>)
    ensures Symbols(a + b) == Symbols(a) + Symbols(b)
  {
    var x, y := Symbols(a + b), Symbols(a) + Symbols(b);
    forall i | 0 <= i < |x| ensures x[i] == y[i] {
      if i < |a| {
        assert (a + b)[i] == a[i];
      } else {
        assert (a + b)[i] == b[i - |a|];
      }
    }
  }

  /** Merging two groups keeps the symbols of both, in order. */
  lemma MergeSymbols(lo: seq<Entry>, hi: seq<Entry>, loE: seq<Entry>, hiE: seq<Entry>)
    requires PrefixedBy(loE, lo, '0') && PrefixedBy(hiE, hi, '1')
    ensures Symbols(loE + hiE) == Symbols(lo) + Symbols(hi)
  {
    SymbolsPrefixed(loE, lo, '0');
    SymbolsPrefixed(hiE, hi, '1');
    SymbolsConcat(loE, hiE);
  }

  /** Merging two valid groups, '0' in front of the lower one and '1' in
      front of the higher one, gives a valid group. */
  lemma MergeValid(lo: seq<Entry>, hi: seq<Entry>, loE: seq<Entry>, hiE: seq<Entry>)
    requires ValidGroup(lo) && ValidGroup(hi)
    requires PrefixedBy(loE, lo, '0') && PrefixedBy(hiE, hi, '1')
    ensures ValidGroup(loE + hiE)
  {
    PrefixedGroup(lo, loE, '0');
    PrefixedGroup(hi, hiE, '1');
    var e := loE + hiE;
    assert forall a :: 0 <= a < |e| ==> e[a] == if a < |loE| then loE[a] else hiE[a - |loE|];
    forall a, b | 0 <= a < |e| && 0 <= b < |e| && a != b
      ensures !(e[a].code <= e[b].code)
    {
      if (a < |loE|) != (b < |loE|) {
        assert e[a].code[0] != e[b].code[0];
      }
    }
  }

  /** The dict comprehension of line 27: one key per symbol and, when no
      symbol repeats, the code of its pair. */
  function ToCodebook(entries: seq<Entry>): (cb: Codebook)
    ensures forall c :: c in cb <==> c in Symbols(entries)
    ensures forall k :: 0 <= k < |entries| ==> entries[k].symbol in cb
    ensures DistinctSymbols(entries) ==> forall k :: 0 <= k < |entries| ==> cb[entries[k].symbol] == entries[k].code
  {
    if entries == [] then map[]
    else
      var init, last := entries[..|entries| - 1], entries[|entries| - 1];
      DropLast(entries);
      ToCodebook(init)[last.symbol := last.code]
  }

  /** The symbols of all pairs but the last, and what distinctness says of them. */
  lemma DropLast(entries: seq<Entry>)
    requires entries != []
    ensures Symbols(entries) == Symbols(entries[..|entries| - 1]) + [entries[|entries| - 1].symbol]
    ensures DistinctSymbols(entries) ==>
      DistinctSymbols(entries[..|entries| - 1]) && entries[|entries| - 1].symbol !in Symbols(entries[..|entries| - 1])
  {
    var init, last := entries[..|entries| - 1], entries[|entries| - 1];
    assert Symbols(entries) == Symbols(init) + [last.symbol];
  }

  /** A sequence with the multiset of a set has no repeated element and
      holds exactly the elements of the set. */
  lemma DistinctFromSet(s: seq<char>, keys: set<char>)
    requires multiset(s) == multiset(keys)
    ensures forall i, j :: 0 <= i < j < |s| ==> s[i] != s[j]
    ensures forall c :: c in s <==> c in keys
    ensures |s| == |keys|
  {
    forall c ensures c in s <==> c in keys {
      assert c in s <==> c in multiset(s);
    }
    forall i, j | 0 <= i < j < |s| ensures s[i] != s[j] {
      SplitAt(s, j);
      assert s[i] in multiset(s[..j]);
      assert multiset(s)[s[j]] == multiset(s[..j])[s[j]] + 1 + multiset(s[j + 1..])[s[j]];
      assert multiset(s)[s[j]] <= 1;
    }
    assert |multiset(s)| == |s|;
  }

  /** The group left at the end of the merge loop yields a codebook over
      exactly the keys, with binary prefix-free codes. */
  lemma FinalCodebook(item: HeapItem, keys: set<char>)
    requires ItemValid(item)
    requires multiset(Symbols(item.entries)) == multiset(keys)
    ensures ToCodebook(item.entries).Keys == keys
    ensures AllBinary(ToCodebook(item.entries)) && PrefixFree(ToCodebook(item.entries))
    ensures |keys| == 1 ==> forall c :: c in ToCodebook(item.entries) ==> ToCodebook(item.entries)[c] == ""
    ensures |keys| >= 2 ==> NonEmptyCodes(ToCodebook(item.entries))
    ensures CodesAtMost(ToCodebook(item.entries), |keys| - 1)
  {
    GroupKeys(item.entries, keys);
    GroupCodes(item.entries);
    GroupPrefixFree(item.entries);
  }

  /** The root group holds each key exactly once. */
  lemma GroupKeys(e: seq<Entry>, keys: set<char>)
    requires multiset(Symbols(e)) == multiset(keys)
    ensures DistinctSymbols(e) && |e| == |keys|
    ensures ToCodebook(e).Keys == keys
  {
    var sy := Symbols(e);
    DistinctFromSet(sy, keys);
    forall i, j | 0 <= i < j < |e| ensures e[i].symbol != e[j].symbol {
      assert sy[i] == e[i].symbol && sy[j] == e[j].symbol;
    }
  }

  /** The codebook of a valid group with distinct symbols has binary codes,
      empty for a lone symbol and non-empty otherwise, each shorter than
      the number of symbols. */
  lemma GroupCodes(e: seq<Entry>)
    requires ValidGroup(e) && DistinctSymbols(e)
    ensures AllBinary(ToCodebook(e))
    ensures |e| == 1 ==> forall c :: c in ToCodebook(e) ==> ToCodebook(e)[c] == ""
    ensures |e| >= 2 ==> NonEmptyCodes(ToCodebook(e))
    ensures CodesAtMost(ToCodebook(e), |e| - 1)
  {
    var cb := ToCodebook(e);
    forall c | c in cb
      ensures IsBinary(cb[c]) && (|e| >= 2 ==> cb[c] != "") && (|e| == 1 ==> cb[c] == "") && |cb[c]| <= |e| - 1
    {
      var k := EntryOf(e, c);
    }
  }

  /** The codebook of a valid group with distinct symbols is prefix-free. */
  lemma GroupPrefixFree(e: seq<Entry>)
    requires ValidGroup(e) && DistinctSymbols(e)
    ensures PrefixFree(ToCodebook(e))
  {
    var cb := ToCodebook(e);
    forall a, b | a in cb && b in cb && a != b ensures !(cb[a] <= cb[b]) {
      var ka := EntryOf(e, a);
      var kb := EntryOf(e, b);
    }
  }

  /** In a group with distinct symbols, the pair that holds symbol `c`. */
  lemma EntryOf(e: seq<Entry>, c: char) returns (k: nat)
    requires DistinctSymbols(e)
    requires c in ToCodebook(e)
    ensures k < |e| && e[k].symbol == c && ToCodebook(e)[c] == e[k].code
  {
    var sy := Symbols(e);
    assert c in sy;
    k :| 0 <= k < |sy| && sy[k] == c;
  }

  ghost predicate DistinctSymbols(e: seq<Entry>) {
    forall i, j :: 0 <= i < j < |e| ==> e[i].symbol != e[j].symbol
  }

  /** One step of building the initial heap: the pair for `s` moves from
      the table to the heap. */
  lemma PushLeaf(heap: seq<HeapItem>, rest: map<char, nat>, s: char)
    requires s in rest
    ensures TotalWeight(heap + [HeapItem(rest[s], [Entry(s, "")])]) + MapSum(rest - {s})
         == TotalWeight(heap) + MapSum(rest)
    ensures SymbolBag(heap + [HeapItem(rest[s], [Entry(s, "")])]) + multiset((rest - {s}).Keys)
         == SymbolBag(heap) + multiset(rest.Keys)
    ensures |rest - {s}| == |rest| - 1
    ensures ItemValid(HeapItem(rest[s], [Entry(s, "")]))
  {
    var leaf := HeapItem(rest[s], [Entry(s, "")]);
    MapSumRemove(rest, s);
    TotalWeightConcat(heap, [leaf]);
    SingleItem(leaf);
    assert Symbols(leaf.entries) == [s];
    assert (rest - {s}).Keys == rest.Keys - {s};
    assert multiset(rest.Keys) == multiset((rest - {s}).Keys) + multiset{s};
  }

  /** The loop invariants of `InitialHeap` survive moving the pair for `s`. */
  lemma LeafStep(heap: seq<HeapItem>, rest: map<char, nat>, s: char, freqs: map<char, nat>)
    requires s in rest
    requires TotalWeight(heap) + MapSum(rest) == MapSum(freqs)
    requires SymbolBag(heap) + multiset(rest.Keys) == multiset(freqs.Keys)
    ensures TotalWeight(heap + [HeapItem(rest[s], [Entry(s, "")])]) + MapSum(rest - {s}) == MapSum(freqs)
    ensures SymbolBag(heap + [HeapItem(rest[s], [Entry(s, "")])]) + multiset((rest - {s}).Keys)
         == multiset(freqs.Keys)
    ensures |rest - {s}| == |rest| - 1
    ensures ItemValid(HeapItem(rest[s], [Entry(s, "")]))
  {
    PushLeaf(heap, rest, s);
  }

  /** Pushing a group adds its weight and its symbols. */
  lemma PushMerged(heap: seq<HeapItem>, item: HeapItem)
    ensures TotalWeight(heap + [item]) == TotalWeight(heap) + item.weight
    ensures SymbolBag(heap + [item]) == SymbolBag(heap) + multiset(Symbols(item.entries))
  {
    TotalWeightConcat(heap, [item]);
    SingleItem(item);
  }

  /** A heap entry of line 17: one pair, a symbol of the table with the
      empty code, weighing that symbol's count. */
  ghost predicate LeafOf(item: HeapItem, freqs: map<char, nat>)
  {
    && |item.entries| == 1
    && item.entries[0].code == ""
    && item.entries[0].symbol in freqs
    && item.weight == freqs[item.entries[0].symbol]
  }

  /** Line 17: one single-pair heap entry per symbol, with the empty code. */
  method InitialHeap(freqs: map<char, nat>) returns (heap: seq<Group>)
    ensures |heap| == |freqs|
    ensures forall k :: 0 <= k < |heap| ==> LeafOf(heap[k], freqs)
    ensures TotalWeight(heap) == MapSum(freqs)
    ensures SymbolBag(heap) == multiset(freqs.Keys)
  {
    heap := [];
    var rest := freqs;
    while rest != map[]
      invariant SubTable(rest, freqs)
      invariant AllLeavesOf(heap, freqs)
      invariant TotalWeight(heap) + MapSum(rest) == MapSum(freqs)
      invariant SymbolBag(heap) + multiset(rest.Keys) == multiset(freqs.Keys)
      invariant |heap| + |rest| == |freqs|
      decreases |rest|
    {
      var s :| s in rest;
      LeafStep(heap, rest, s, freqs);
      LeafOfStep(heap, rest, s, freqs);
      var leaf: Group := HeapItem(rest[s], [Entry(s, "")]);
      heap := heap + [leaf];
      rest := rest - {s};
    }
  }

  /** Every pair of `rest` is a pair of `freqs`. */
  ghost predicate SubTable(rest: map<char, nat>, freqs: map<char, nat>)
  {
    forall k :: k in rest ==> k in freqs && rest[k] == freqs[k]
  }

  ghost predicate AllLeavesOf(heap: seq<HeapItem>, freqs: map<char, nat>)
  {
    forall k :: 0 <= k < |heap| ==> LeafOf(heap[k], freqs)
  }

  /** Moving the pair for `s` keeps the heap made of leaves of `freqs`
      and what is left a part of `freqs`. */
  lemma LeafOfStep(heap: seq<HeapItem>, rest: map<char, nat>, s: char, freqs: map<char, nat>)
    requires s in rest && SubTable(rest, freqs) && AllLeavesOf(heap, freqs)
    ensures SubTable(rest - {s}, freqs)
    ensures AllLeavesOf(heap + [HeapItem(rest[s], [Entry(s, "")])], freqs)
  {
  }

  /** `heappop`: take out an entry of least weight. */
  method PopMin(heap: seq<Group>) returns (item: Group, rest: seq<Group>)
    requires |heap| >= 1
    ensures multiset(heap) == multiset(rest) + multiset{item}
    ensures forall k :: 0 <= k < |heap| ==> item.weight <= heap[k].weight
    ensures forall k :: 0 <= k < |rest| ==> item.weight <= rest[k].weight
    ensures |rest| == |heap| - 1
    ensures TotalWeight(heap) == TotalWeight(rest) + item.weight
    ensures SymbolBag(heap) == SymbolBag(rest) + multiset(Symbols(item.entries))
  {
    var i := MinIndex(heap);
    item := heap[i];
    RemoveAt(heap, i);
    rest := heap[..i] + heap[i + 1..];
    TakeOut(heap, i);
    forall k | 0 <= k < |rest| ensures item.weight <= rest[k].weight {
      assert rest[k] == if k < i then heap[k] else heap[k + 1];
    }
  }

  /** Taking out the element at `i` takes it out of the multiset. */
  lemma TakeOut<T>(s: seq<T>, i: nat)
    requires i < |s|
    ensures multiset(s) == multiset(s[..i] + s[i + 1..]) + multiset{s[i]}
  {
    SplitAt(s, i);
  }

  /** `merged` weighs `lo` and `hi` together and lists the pairs of `lo`
      with '0' in front of their codes, then those of `hi` with '1'. */
  ghost predicate MergedFrom(merged: HeapItem, lo: HeapItem, hi: HeapItem)
  {
    && merged.weight == lo.weight + hi.weight
    && |merged.entries| == |lo.entries| + |hi.entries|
    && PrefixedBy(merged.entries[..|lo.entries|], lo.entries, '0')
    && PrefixedBy(merged.entries[|lo.entries|..], hi.entries, '1')
  }

  /** Lines 22-26: the entry pushed back for `lo` and `hi`, its pairs those
      of `lo` with '0' in front of their codes, then those of `hi` with '1'
      in front of theirs. */
  method Merge(lo: Group, hi: Group) returns (merged: Group)
    ensures MergedFrom(merged, lo, hi)
    ensures multiset(Symbols(merged.entries)) == multiset(Symbols(lo.entries)) + multiset(Symbols(hi.entries))
  {
    var loEntries := PrefixAll(lo.entries, '0');
    var hiEntries := PrefixAll(hi.entries, '1');
    MergeValid(lo.entries, hi.entries, loEntries, hiEntries);
    MergeSymbols(lo.entries, hi.entries, loEntries, hiEntries);
    merged := HeapItem(lo.weight + hi.weight, loEntries + hiEntries);
    assert merged.entries[..|lo.entries|] == loEntries;
    assert merged.entries[|lo.entries|..] == hiEntries;
  }

  /** Lines 20-26, one iteration of the merge loop: pop the two lightest
      entries, put '0' before the codes of the first and '1' before the
      codes of the second, push their union with the summed weight. The
      heap shrinks by one and keeps its total weight and its symbols. */
  method MergeLightest(heap: seq<Group>) returns (heap': seq<Group>, ghost lo: Group, ghost hi: Group)
    requires |heap| >= 2
    ensures |heap'| == |heap| - 1
    ensures multiset(heap) == multiset(heap'[..|heap'| - 1]) + multiset{lo, hi}
    ensures forall k :: 0 <= k < |heap| ==> lo.weight <= heap[k].weight
    ensures lo.weight <= hi.weight
    ensures forall k :: 0 <= k < |heap'| - 1 ==> hi.weight <= heap'[k].weight
    ensures MergedFrom(heap'[|heap'| - 1], lo, hi)
    ensures TotalWeight(heap') == TotalWeight(heap)
    ensures SymbolBag(heap') == SymbolBag(heap)
  {
    var first, rest := PopMin(heap);
    var second, rest' := PopMin(rest);
    var merged := Merge(first, second);
    lo, hi := first, second;
    heap' := rest' + [merged];
    assert heap'[..|heap'| - 1] == rest';
    MergeBookkeeping(heap, rest, rest', lo, hi, merged);
    PopTwice(multiset(heap), multiset(rest), multiset(rest'), lo, hi);
    assert hi in multiset(rest);
    ghost var j :| 0 <= j < |rest| && rest[j] == hi;
  }

  /** Taking out `lo`, then `hi`, takes both out. */
  lemma PopTwice<T>(a: multiset<T>, b: multiset<T>, c: multiset<T>, lo: T, hi: T)
    requires a == b + multiset{lo} && b == c + multiset{hi}
    ensures a == c + multiset{lo, hi}
    ensures hi in b
  {
  }

  /** The weights and symbols of the two popped entries reappear, summed, in
      the pushed one. */
  lemma MergeBookkeeping(heap: seq<HeapItem>, rest: seq<HeapItem>, rest': seq<HeapItem>, lo: HeapItem, hi: HeapItem, merged: HeapItem)
    requires TotalWeight(heap) == TotalWeight(rest) + lo.weight
    requires TotalWeight(rest) == TotalWeight(rest') + hi.weight
    requires merged.weight == lo.weight + hi.weight
    requires SymbolBag(heap) == SymbolBag(rest) + multiset(Symbols(lo.entries))
    requires SymbolBag(rest) == SymbolBag(rest') + multiset(Symbols(hi.entries))
    requires multiset(Symbols(merged.entries)) == multiset(Symbols(lo.entries)) + multiset(Symbols(hi.entries))
    ensures TotalWeight(rest' + [merged]) == TotalWeight(heap)
    ensures SymbolBag(rest' + [merged]) == SymbolBag(heap)
  {
    PushMerged(rest', merged);
    BagRegroup(SymbolBag(heap), SymbolBag(rest), SymbolBag(rest'),
      multiset(Symbols(lo.entries)), multiset(Symbols(hi.entries)), multiset(Symbols(merged.entries)));
  }

  /** Taking out `x`, then `y`, and putting back their union restores the bag. */
  lemma BagRegroup(a: multiset<char>, b: multiset<char>, c: multiset<char>, x: multiset<char>, y: multiset<char>, m: multiset<char>)
    requires a == b + x && b == c + y && m == x + y
    ensures c + m == a
  {
  }

  /** `build_huffman_code` over natural-number weights. An empty table has
      no heap entry to read at the end (the `IndexError` of line 27), which
      is `None` here. */
  method BuildHuffmanCode(freqs: map<char, nat>) returns (r: Option<Codebook>, ghost rootWeight: nat, ghost merges: nat)
    ensures r.None? <==> freqs == map[]
    ensures r.Some? ==> r.value.Keys == freqs.Keys && AllBinary(r.value) && PrefixFree(r.value)
    ensures r.Some? ==> rootWeight == MapSum(freqs) && merges == |freqs| - 1
    ensures |freqs| == 1 ==> r.Some? && forall c :: c in r.value ==> r.value[c] == ""
    ensures |freqs| >= 2 ==> r.Some? && NonEmptyCodes(r.value)
    ensures r.Some? ==> CodesAtMost(r.value, |freqs| - 1)
  {
    var heap := InitialHeap(freqs);
    if heap == [] {
      return None, 0, 0;
    }
    merges := 0;
    while |heap| > 1
      invariant |heap| >= 1
      invariant TotalWeight(heap) == MapSum(freqs)
      invariant SymbolBag(heap) == multiset(freqs.Keys)
      invariant merges + |heap| == |freqs|
    {
      ghost var lo, hi;
      heap, lo, hi := MergeLightest(heap);
      merges := merges + 1;
    }
    // line 27
    rootWeight := heap[0].weight;
    SingleItem(heap[0]);
    assert heap == [heap[0]];
    FinalCodebook(heap[0], freqs.Keys);
    r := Some(ToCodebook(heap[0].entries));
  }
}
