/** The script at the bottom of main.py: count, build the code, encode, save
    and load the two files, decode, compare.  The files themselves become the
    values written to them. */
module Pipeline {
  import opened Wrappers
  import opened Alphabet
  import opened Codebooks
  import opened Codec
  import opened HuffmanBuild
  import opened Payload
  import opened CodebookFile

  /** A text made of one alphabet character repeated loses all of it: its
      only symbol gets the empty code, so it encodes to no bits at all and
      decodes to the empty string. */
  lemma SingleSymbolLost(text: string, c: char)
    requires text != [] && InAlphabet(c)
    requires forall i :: 0 <= i < |text| ==> text[i] == c
    ensures AnalyzeText(text).Keys == {c}
    ensures Encoding(text, map[c := ""]) == []
    ensures Decoded(Encoding(text, map[c := ""]), InvertCodebook(map[c := ""])) == ""
    ensures Decoded(Encoding(text, map[c := ""]), InvertCodebook(map[c := ""])) != text
  {
    var counts := AnalyzeText(text);
    assert c in counts by {
      assert text[0] in text;
    }
    forall k | k in counts ensures k == c {
      var i :| 0 <= i < |text| && text[i] == k;
    }
    OnlyKey(counts, c);
    EmptyCodeEncoding(text, c);
  }

  lemma OnlyKey<V>(m: map<char, V>, c: char)
    requires c in m && forall k :: k in m ==> k == c
    ensures m.Keys == {c}
  {
  }

  lemma {:induction false} EmptyCodeEncoding(text: string, c: char)
    requires forall i :: 0 <= i < |text| ==> text[i] == c
    ensures Encoding(text, map[c := ""]) == []
  {
    if text != [] {
      EmptyCodeEncoding(text[..|text| - 1], c);
    }
  }

  /** The code the script needs: as built by `build_huffman_code`, except
      that a lone symbol gets the one-bit code "0" instead of the empty one. */
  method BuildHuffmanCodeCorrected(freqs: map<char, nat>) returns (r: Option<Codebook>)
    ensures r.None? <==> freqs == map[]
    ensures r.Some? ==> r.value.Keys == freqs.Keys
    ensures r.Some? ==> AllBinary(r.value) && PrefixFree(r.value) && NonEmptyCodes(r.value)
    ensures r.Some? ==> CodesAtMost(r.value, |freqs|)
    ensures |freqs| == 1 ==> r.Some? && forall c :: c in r.value ==> r.value[c] == "0"
  {
    var built, rootWeight, merges := BuildHuffmanCode(freqs);
    if built.Some? && |freqs| == 1 {
      r := Some(map c | c in freqs :: "0");
    } else {
      r := built;
    }
  }

  /** With nonempty codes every encoded character takes at least one bit. */
  lemma {:induction false} OneBitPerChar(text: string, cb: Codebook)
    requires NonEmptyCodes(cb)
    requires forall i :: 0 <= i < |text| ==> text[i] in cb
    ensures |text| <= |Encoding(text, cb)|
  {
    if text != [] {
      OneBitPerChar(text[..|text| - 1], cb);
    }
  }

  /** The order in which the codebook file lists its symbols; the model fixes
      alphabet order where the script uses the dictionary's insertion order. */
  function KeyOrder(cb: Codebook, chars: string): (order: seq<char>)
    ensures forall i :: 0 <= i < |order| ==> order[i] in cb
    ensures forall c :: c in order <==> c in chars && c in cb
  {
    if chars == [] then []
    else
      var rest := KeyOrder(cb, chars[1..]);
      if chars[0] in cb then [chars[0]] + rest else rest
  }

  /** Both files read back what was written to them, and the codes read
      back decode the bits read back to the text. */
  lemma FilesRestore(text: string, cb: Codebook, order: seq<char>)
    requires forall i :: 0 <= i < |text| ==> text[i] in cb
    requires forall c :: c in cb ==> InAlphabet(c)
    requires forall c :: c in cb <==> c in order
    requires AllBinary(cb) && PrefixFree(cb) && NonEmptyCodes(cb)
    requires |Encoding(text, cb)| < PREFIX_LIMIT
    ensures ParseLines(FormatCodebook(cb, order)) == Success(cb)
    ensures SavePayload(Encoding(text, cb)).Success?
    ensures LoadPayload(SavePayload(Encoding(text, cb)).value) == Encoding(text, cb)
    ensures DistinctCodes(cb)
    ensures Decoded(Encoding(text, cb), InvertCodebook(cb)) == text
  {
    CodebookRoundTrip(cb, order);
    PayloadRoundTrip(Encoding(text, cb));
    RoundTrip(text, cb);
  }

  /** What the script ends with: the restored text, or the reason it stops
      early (`heap[0]` on an empty heap; a length `to_bytes(4)` rejects). */
  datatype Outcome = Restored(text: string) | EmptyText | TooLong(length: nat)

  /** Lines 100-106 with the corrected code: every nonempty alphabet text
      whose encoding fits the 4-byte length prefix comes back unchanged; the
      empty text has no code to build; a longer encoding cannot be saved. */
  method CompressAndRestore(text: string) returns (r: Outcome, ghost cb: Codebook)
    requires AllInAlphabet(text)
    ensures r == EmptyText <==> text == []
    ensures text != [] ==> cb.Keys == AnalyzeText(text).Keys
    ensures text != [] ==> AllBinary(cb) && PrefixFree(cb) && NonEmptyCodes(cb)
    ensures text != [] && |Encoding(text, cb)| < PREFIX_LIMIT ==> r == Restored(text)
    ensures text != [] ==> CodesAtMost(cb, |AnalyzeText(text)|)
    ensures text != [] && |text| * |text| < PREFIX_LIMIT ==> r == Restored(text)
    ensures text != [] ==> (r.TooLong? <==> PREFIX_LIMIT <= |Encoding(text, cb)|)
    ensures r.TooLong? ==> r.length == |Encoding(text, cb)| && PREFIX_LIMIT <= r.length && |text| <= r.length
  {
    cb := map[];
    var freqs := AnalyzeText(text);
    var built := BuildHuffmanCodeCorrected(freqs);
    if built.None? {
      return EmptyText, cb;
    }
    var book := built.value;
    cb := book;
    forall i | 0 <= i < |text| ensures text[i] in book {
      assert text[i] in text;
    }
    ShortTextFits(text, book);
    r := SaveAndRestore(text, book);
  }

  /** A text encoded with codes no longer than its number of symbols takes
      at most `|text| * |text|` bits. */
  lemma ShortTextFits(text: string, cb: Codebook)
    requires CodesAtMost(cb, |AnalyzeText(text)|)
    ensures |Encoding(text, cb)| <= |text| * |text|
  {
    var n := |AnalyzeText(text)|;
    FewerSymbolsThanChars(text);
    EncodingWithin(text, cb, n);
    MulAtMost(|text|, n, |text|);
  }

  lemma MulAtMost(k: nat, n: nat, m: nat)
    requires n <= m
    ensures k * n <= k * m
  {
  }

  /** Lines 103-106 once the code is built: encode, write and read back
      both files, decode. Only an encoding too long for the length prefix
      stops it; otherwise the text comes back. */
  method SaveAndRestore(text: string, cb: Codebook) returns (r: Outcome)
    requires forall i :: 0 <= i < |text| ==> text[i] in cb
    requires forall c :: c in cb ==> InAlphabet(c)
    requires AllBinary(cb) && PrefixFree(cb) && NonEmptyCodes(cb)
    ensures r.TooLong? <==> PREFIX_LIMIT <= |Encoding(text, cb)|
    ensures !r.TooLong? ==> r == Restored(text)
    ensures r.TooLong? ==> r.length == |Encoding(text, cb)| && |text| <= r.length
  {
    var bits := Encode(text, cb);
    var payload := SavePayload(bits);
    if payload.Failure? {
      OneBitPerChar(text, cb);
      return TooLong(|bits|);
    }
    var order := KeyOrder(cb, ALPHABET);
    var lines := FormatCodebook(cb, order);
    var loadedCb := LoadCodebook(lines);
    var loadedBits := LoadPayload(payload.value);
    forall c | c in cb ensures c in ALPHABET {
      AlphabetMembers(c);
    }
    FilesRestore(text, cb, order);
    var restored := Decode(loadedBits, InvertCodebook(loadedCb.value));
    r := Restored(restored);
  }
}
