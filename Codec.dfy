/** `encode` and `decode`: codes concatenated into a bit array, and the
    greedy bit-by-bit match against the decode map. */
module Codec {
  import opened Codebooks

  /** A `bitarray`: `true` is the bit 1. */
  type Bits = seq<bool>

  /** The bits `bitarray.extend` appends for a code string. */
  function CodeBits(code: string): (b: Bits)
    ensures |b| == |code|
    ensures forall i :: 0 <= i < |code| ==> b[i] == (code[i] == '1')
  {
    seq(|code|, i requires 0 <= i < |code| => code[i] == '1')
  }

  /** `bitarray.to01()`. */
  function To01(bits: Bits): (s: string)
    ensures |s| == |bits| && IsBinary(s)
    ensures forall i :: 0 <= i < |bits| ==> (s[i] == '1') == bits[i]
  {
    seq(|bits|, i requires 0 <= i < |bits| => if bits[i] then '1' else '0')
  }

  lemma To01Concat(a: Bits, b: Bits)
    ensures To01(a + b) == To01(a) + To01(b)
  {
  }

  /** Writing a binary code as bits and reading them back as '0'/'1' gives the code. */
  lemma To01CodeBits(code: string)
    requires IsBinary(code)
    ensures To01(CodeBits(code)) == code
  {
  }

  /** The bits of one character: its code, or nothing when it has none. */
  function SymbolBits(c: char, cb: Codebook): Bits
  {
    if c in cb then CodeBits(cb[c]) else []
  }

  /** No character of `text` has a code. */
  predicate NoneCoded(cb: Codebook, text: string) {
    forall i :: 0 <= i < |text| ==> text[i] !in cb
  }

  /** What `encode` returns: the codes of the characters of `text`, in
      order, with the characters that have no code skipped. */
  function Encoding(text: string, cb: Codebook): Bits
  {
    if text == [] then [] else Encoding(text[..|text| - 1], cb) + SymbolBits(text[|text| - 1], cb)
  }

  /** Characters without a code contribute no bits. */
  lemma {:induction false} NoCodesNoBits(text: string, cb: Codebook)
    requires NoneCoded(cb, text)
    ensures Encoding(text, cb) == []
  {
    if text != [] {
      NoCodesNoBits(text[..|text| - 1], cb);
    }
  }

  /** With no code longer than `n` digits, each character takes at most
      `n` bits. */
  lemma {:induction false} EncodingWithin(text: string, cb: Codebook, n: nat)
    requires CodesAtMost(cb, n)
    ensures |Encoding(text, cb)| <= |text| * n
  {
    if text != [] {
      var init := text[..|text| - 1];
      EncodingWithin(init, cb, n);
      assert |SymbolBits(text[|text| - 1], cb)| <= n;
      OneMore(|init|, n);
    }
  }

  lemma OneMore(k: nat, n: nat)
    ensures k * n + n == (k + 1) * n
  {
  }

  lemma {:induction false} EncodingConcat(a: string, b: string, cb: Codebook)
    ensures Encoding(a + b, cb) == Encoding(a, cb) + Encoding(b, cb)
    decreases |b|
  {
    if b == [] {
      assert a + b == a;
    } else {
      assert (a + b)[..|a + b| - 1] == a + b[..|b| - 1];
      EncodingConcat(a, b[..|b| - 1], cb);
    }
  }

  /** `encode`. */
  method Encode(text: string, cb: Codebook) returns (bits: Bits)
    ensures bits == Encoding(text, cb)
  {
    bits := [];
    var i := 0;
    while i < |text|
      invariant 0 <= i <= |text|
      invariant bits == Encoding(text[..i], cb)
    {
      assert text[..i + 1][..i] == text[..i];
      if text[i] in cb {
        bits := bits + CodeBits(cb[text[i]]);
      }
      i := i + 1;
    }
    assert text[..|text|] == text;
  }

  /** The greedy decoder from a partly filled buffer: append the next bit,
      emit the matching symbol and clear the buffer on a match. Whatever is
      left in the buffer at the end is dropped. */
  function DecodeFrom(buffer: string, rest: string, dm: DecodeMap): (out: string)
    ensures |out| <= |rest|
    ensures forall c :: c in out ==> c in dm.Values
    decreases |rest|
  {
    if rest == [] then []
    else
      var b := buffer + [rest[0]];
      if b in dm then [dm[b]] + DecodeFrom("", rest[1..], dm) else DecodeFrom(b, rest[1..], dm)
  }

  /** What `decode` returns. */
  function Decoded(bits: Bits, dm: DecodeMap): (text: string)
    ensures |text| <= |bits|
    ensures forall c :: c in text ==> c in dm.Values
  {
    DecodeFrom("", To01(bits), dm)
  }

  /** `decode`. */
  method Decode(bits: Bits, dm: DecodeMap) returns (text: string)
    ensures text == Decoded(bits, dm)
  {
    var s := To01(bits);
    var output := "";
    var buffer := "";
    var i := 0;
    while i < |s|
      invariant 0 <= i <= |s|
      invariant output + DecodeFrom(buffer, s[i..], dm) == DecodeFrom("", s, dm)
    {
      assert s[i..][0] == s[i] && s[i..][1..] == s[i + 1..];
      buffer := buffer + [s[i]];
      if buffer in dm {
        output := output + [dm[buffer]];
        buffer := "";
      }
      i := i + 1;
    }
    text := output;
  }

  lemma PrefixFreeDistinct(cb: Codebook)
    requires PrefixFree(cb)
    ensures DistinctCodes(cb)
  {
  }

  /** `dm` maps every code of `cb` back to its symbol and holds nothing else. */
  ghost predicate Inverts(dm: DecodeMap, cb: Codebook) {
    && (forall s :: s in cb ==> cb[s] in dm && dm[cb[s]] == s)
    && (forall w :: w in dm ==> dm[w] in cb && cb[dm[w]] == w)
  }

  /** Reading the rest of the code of `c` after its first `j` bits emits
      exactly `c`: no shorter prefix of it is a code, by prefix-freeness. */
  lemma {:induction false} DecodeOneCode(cb: Codebook, dm: DecodeMap, c: char, j: nat, rest: string)
    requires PrefixFree(cb) && Inverts(dm, cb) && c in cb && j < |cb[c]|
    ensures DecodeFrom(cb[c][..j], cb[c][j..] + rest, dm) == [c] + DecodeFrom("", rest, dm)
    decreases |cb[c]| - j
  {
    var w := cb[c];
    var s := w[j..] + rest;
    var b := w[..j] + [s[0]];
    assert b == w[..j + 1];
    assert s[1..] == w[j + 1..] + rest;
    if j + 1 == |w| {
      assert b == w;
      assert s[1..] == rest;
    } else {
      DecodeOneCode(cb, dm, c, j + 1, rest);
    }
  }

  /** A whole code at the front of the input decodes to its symbol. */
  lemma DecodeCodeThen(cb: Codebook, dm: DecodeMap, c: char, rest: string)
    requires PrefixFree(cb) && Inverts(dm, cb) && c in cb && cb[c] != ""
    ensures DecodeFrom("", cb[c] + rest, dm) == [c] + DecodeFrom("", rest, dm)
  {
    DecodeOneCode(cb, dm, c, 0, rest);
    assert cb[c][..0] == "" && cb[c][0..] == cb[c];
  }

  /** The bits of a text start with the code of its first character. */
  lemma EncodingFront(text: string, cb: Codebook)
    requires text != [] && text[0] in cb && IsBinary(cb[text[0]])
    ensures To01(Encoding(text, cb)) == cb[text[0]] + To01(Encoding(text[1..], cb))
  {
    var c, t := text[0], text[1..];
    assert text == [c] + t;
    EncodingConcat([c], t, cb);
    assert [c][..0] == [];
    assert Encoding([c], cb) == CodeBits(cb[c]);
    To01Concat(Encoding([c], cb), Encoding(t, cb));
    To01CodeBits(cb[c]);
  }

  /** A codebook the greedy decoder reads back without loss, with `dm`
      its inverse. */
  ghost predicate Decodable(cb: Codebook, dm: DecodeMap) {
    PrefixFree(cb) && NonEmptyCodes(cb) && AllBinary(cb) && Inverts(dm, cb)
  }

  /** Every character of `text` has a code. */
  predicate Covers(cb: Codebook, text: string) {
    forall i :: 0 <= i < |text| ==> text[i] in cb
  }

  /** One step of the round trip: the first character's code, then the rest. */
  lemma DecodeFirstThen(text: string, cb: Codebook, dm: DecodeMap, tail: string)
    requires Decodable(cb, dm) && Covers(cb, text) && text != []
    ensures Covers(cb, text[1..])
    ensures DecodeFrom("", To01(Encoding(text, cb)) + tail, dm)
         == [text[0]] + DecodeFrom("", To01(Encoding(text[1..], cb)) + tail, dm)
  {
    var c, t := text[0], text[1..];
    var e, e' := To01(Encoding(text, cb)), To01(Encoding(t, cb));
    assert c in cb;
    EncodingFront(text, cb);
    assert e + tail == cb[c] + (e' + tail);
    DecodeCodeThen(cb, dm, c, e' + tail);
    assert Covers(cb, t) by {
      forall i | 0 <= i < |t| ensures t[i] in cb {
        assert t[i] == text[i + 1];
      }
    }
  }

  lemma ConsAppend<T>(s: seq<T>, x: seq<T>)
    requires s != []
    ensures [s[0]] + (s[1..] + x) == s + x
  {
    assert s == [s[0]] + s[1..];
  }

  /** Decoding the encoding of a text, followed by any tail, yields the
      text and then whatever the tail decodes to on its own. */
  lemma {:induction false} DecodeEncodingThen(text: string, cb: Codebook, dm: DecodeMap, tail: string)
    requires Decodable(cb, dm) && Covers(cb, text)
    ensures DecodeFrom("", To01(Encoding(text, cb)) + tail, dm) == text + DecodeFrom("", tail, dm)
    decreases |text|
  {
    if text != [] {
      DecodeFirstThen(text, cb, dm, tail);
      DecodeEncodingThen(text[1..], cb, dm, tail);
      ConsAppend(text, DecodeFrom("", tail, dm));
    } else {
      assert To01(Encoding(text, cb)) + tail == tail;
    }
  }

  /** The round trip of main.py:116: decoding what `encode` produced gives
      back the text, for a prefix-free codebook with non-empty codes that
      covers every character of the text. */
  lemma RoundTrip(text: string, cb: Codebook)
    requires PrefixFree(cb) && NonEmptyCodes(cb) && AllBinary(cb)
    requires forall i :: 0 <= i < |text| ==> text[i] in cb
    ensures DistinctCodes(cb)
    ensures Decoded(Encoding(text, cb), InvertCodebook(cb)) == text
  {
    PrefixFreeDistinct(cb);
    var dm := InvertCodebook(cb);
    assert Decodable(cb, dm);
    DecodeEncodingThen(text, cb, dm, "");
    assert To01(Encoding(text, cb)) + "" == To01(Encoding(text, cb));
  }

  /** Trailing bits that never complete a code are dropped. */
  lemma {:induction false} TrailingBitsDropped(buffer: string, rest: string, dm: DecodeMap)
    requires forall k :: 1 <= k <= |rest| ==> buffer + rest[..k] !in dm
    ensures DecodeFrom(buffer, rest, dm) == ""
    decreases |rest|
  {
    if rest != [] {
      assert buffer + rest[..1] == buffer + [rest[0]];
      forall k | 1 <= k <= |rest| - 1 ensures (buffer + [rest[0]]) + rest[1..][..k] !in dm {
        assert (buffer + [rest[0]]) + rest[1..][..k] == buffer + rest[..k + 1];
      }
      TrailingBitsDropped(buffer + [rest[0]], rest[1..], dm);
    }
  }
}
