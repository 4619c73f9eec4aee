/** Codebooks (symbol to code string) and decode maps (code string to
    symbol), with the properties the decoder relies on. */
module Codebooks {

  /** What `build_huffman_code` returns and `load` rebuilds. */
  type Codebook = map<char, string>

  /** What `invert_codebook` returns and `decode` consults. */
  type DecodeMap = map<string, char>

  /** A code is written with the digits '0' and '1' only. */
  predicate IsBinary(code: string) {
    forall i :: 0 <= i < |code| ==> code[i] == '0' || code[i] == '1'
  }

  predicate AllBinary(cb: Codebook) {
    forall s :: s in cb ==> IsBinary(cb[s])
  }

  /** No code is a prefix of (or equal to) the code of another symbol. */
  predicate PrefixFree(cb: Codebook) {
    forall a, b :: a in cb && b in cb && a != b ==> !(cb[a] <= cb[b])
  }

  /** No two symbols share a code. */
  predicate DistinctCodes(cb: Codebook) {
    forall a, b :: a in cb && b in cb && a != b ==> cb[a] != cb[b]
  }

  predicate NonEmptyCodes(cb: Codebook) {
    forall s :: s in cb ==> cb[s] != ""
  }

  /** No code is longer than `n` digits. */
  predicate CodesAtMost(cb: Codebook, n: int) {
    forall s :: s in cb ==> |cb[s]| <= n
  }

  /** `invert_codebook`: swap every symbol with its code. For a codebook
      with distinct codes the result is the exact inverse. */
  function InvertCodebook(cb: Codebook): (dm: DecodeMap)
    requires DistinctCodes(cb)
    ensures dm.Keys == cb.Values
    ensures forall s :: s in cb ==> cb[s] in dm && dm[cb[s]] == s
    ensures forall w :: w in dm ==> dm[w] in cb && cb[dm[w]] == w
  {
    map s | s in cb :: cb[s] := s
  }
}
