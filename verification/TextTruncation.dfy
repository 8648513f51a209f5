/** Cutting a text to a number of UTF-8 bytes (RFC 3629, sections 3 and 4). */
module TextTruncation {
  import opened Utf8

  const SUFFIX: string := "...[truncated]"

  /** `encoded[:k]`, where a negative bound counts from the end. */
  function PythonTake(b: seq<Byte>, k: int): (t: seq<Byte>) {
    if k >= |b| then b else if k >= 0 then b[..k] else if |b| + k >= 0 then b[..|b| + k] else []
  }

  function TruncateText(text: string, maxBytes: int): (t: string) {
    var encoded := Encode(text);
    if |encoded| <= maxBytes then text
    else if maxBytes <= 20 then DecodeIgnoring(PythonTake(encoded, maxBytes))
    else DecodeIgnoring(PythonTake(encoded, maxBytes - |Encode(SUFFIX)|)) + SUFFIX
  }

  /** `p` is a prefix of `text` of at most `budget` bytes, and there is no longer one. */
  ghost predicate LongestFittingPrefix(text: string, p: string, budget: nat) {
    && p <= text
    && |Encode(p)| <= budget
    && forall q: string :: q <= text && |Encode(q)| <= budget ==> |q| <= |p|
  }

  lemma SuffixBytes()
    ensures |Encode(SUFFIX)| == 14
  {
    hide Encode;
    AsciiBytes(SUFFIX);
  }

  lemma {:induction false} AsciiBytes(s: string)
    requires forall i :: 0 <= i < |s| ==> s[i] < '\U{80}'
    ensures |Encode(s)| == |s|
  {
    if s != [] {
      AsciiBytes(s[1..]);
    }
  }

  /**
   The result never takes more than `maxBytes` bytes. A text that fits is unchanged; of any other one the longest
   prefix of whole characters is kept that fits the budget, which a bound above 20 shares with the suffix.
   */
  lemma TruncatedFits(text: string, maxBytes: nat)
    ensures |Encode(TruncateText(text, maxBytes))| <= maxBytes
    ensures |Encode(text)| <= maxBytes ==> TruncateText(text, maxBytes) == text
    ensures |Encode(text)| > maxBytes && maxBytes <= 20 ==>
              LongestFittingPrefix(text, TruncateText(text, maxBytes), maxBytes)
    ensures |Encode(text)| > maxBytes > 20 ==>
              exists p :: LongestFittingPrefix(text, p, maxBytes - 14) && TruncateText(text, maxBytes) == p + "...[truncated]"
  {
    hide Encode, DecodeIgnoring;
    SuffixBytes();
    if |Encode(text)| > maxBytes {
      var budget := if maxBytes <= 20 then maxBytes else maxBytes - 14;
      CutDecodesToLongestPrefix(text, budget);
      var p := DecodeIgnoring(Encode(text)[..budget]);
      assert LongestFittingPrefix(text, p, budget);
      EncodeAppend(p, SUFFIX);
    }
  }

  /** Truncating again to the same bound changes nothing. */
  lemma TruncateTwice(text: string, maxBytes: nat)
    ensures TruncateText(TruncateText(text, maxBytes), maxBytes) == TruncateText(text, maxBytes)
  {
    TruncatedFits(text, maxBytes);
  }
}
