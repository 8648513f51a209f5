/**
 UTF-8 as RFC 3629 defines it: the encoding of section 3 and, for decoding, the
 well-formedness table of section 4. A Dafny `char` is a Unicode scalar value,
 so a `string` here is exactly a Rust `str` (or a Python `str` without lone surrogates).
 */
module Utf8 {
  import opened Options

  type Byte = n: nat | n < 256

  function EncodeChar(c: char): (bytes: seq<Byte>)
    ensures 1 <= |bytes| <= 4
  {
    var n := c as int;
    if n < 0x80 then [n]
    else if n < 0x800 then [0xC0 + n / 64, 0x80 + n % 64]
    else if n < 0x10000 then [0xE0 + n / 4096, 0x80 + n / 64 % 64, 0x80 + n % 64]
    else [0xF0 + n / 262144, 0x80 + n / 4096 % 64, 0x80 + n / 64 % 64, 0x80 + n % 64]
  }

  function Encode(s: string): (bytes: seq<Byte>)
  {
    if s == [] then [] else EncodeChar(s[0]) + Encode(s[1..])
  }

  predicate Between(b: seq<Byte>, i: nat, lo: nat, hi: nat) {
    i < |b| && lo <= b[i] <= hi
  }

  /** The well-formed sequence at the head of `b`, if there is one, with its length. */
  function DecodeHead(b: seq<Byte>): (r: Option<(char, nat)>)
    ensures r.Some? ==> 1 <= r.value.1 <= |b|
  {
    if b == [] then None
    else
      var x: int := b[0];
      if x < 0x80 then Some((x as char, 1))
      else if 0xC2 <= x <= 0xDF && Between(b, 1, 0x80, 0xBF) then
        Some((((x - 0xC0) * 64 + Low(b, 1)) as char, 2))
      else if 0xE0 <= x <= 0xEF
           && Between(b, 1, if x == 0xE0 then 0xA0 else 0x80, if x == 0xED then 0x9F else 0xBF)
           && Between(b, 2, 0x80, 0xBF) then
        Some((((x - 0xE0) * 4096 + Low(b, 1) * 64 + Low(b, 2)) as char, 3))
      else if 0xF0 <= x <= 0xF4
           && Between(b, 1, if x == 0xF0 then 0x90 else 0x80, if x == 0xF4 then 0x8F else 0xBF)
           && Between(b, 2, 0x80, 0xBF) && Between(b, 3, 0x80, 0xBF) then
        Some((((x - 0xF0) * 262144 + Low(b, 1) * 4096 + Low(b, 2) * 64 + Low(b, 3)) as char, 4))
      else None
  }

  /** The six payload bits of a continuation byte. */
  function Low(b: seq<Byte>, i: nat): int
    requires i < |b|
  {
    b[i] as int - 0x80
  }

  /**
   Decoding that drops every byte that starts no well-formed sequence. Dropping a
   malformed maximal subpart at once, as CPython does, leaves the same text, since
   a continuation byte never starts a sequence.
   */
  function DecodeIgnoring(b: seq<Byte>): (s: string)
  {
    if b == [] then []
    else match DecodeHead(b)
      case Some((c, n)) => [c] + DecodeIgnoring(b[n..])
      case None => DecodeIgnoring(b[1..])
  }

  /** The base-64 digits of a number below 2^24, most significant first. */
  lemma Base64Digits(n: nat)
    requires n < 0x1000000
    ensures n == n / 262144 * 262144 + n / 4096 % 64 * 4096 + n / 64 % 64 * 64 + n % 64
    ensures n / 4096 == n / 262144 * 64 + n / 4096 % 64
    ensures n / 64 == n / 4096 * 64 + n / 64 % 64
  {
  }

  lemma DecodeHeadOfEncoded(c: char, rest: seq<Byte>)
    ensures DecodeHead(EncodeChar(c) + rest) == Some((c, |EncodeChar(c)|))
  {
    var n := c as int;
    Base64Digits(n);
    var d3, d2, d1, d0 := n / 262144, n / 4096 % 64, n / 64 % 64, n % 64;
    if n < 0x80 {
      HeadIgnoresRest([n], rest);
    } else if n < 0x800 {
      HeadIgnoresRest([0xC0 + n / 64, 0x80 + d0], rest);
    } else if n < 0x10000 {
      HeadIgnoresRest([0xE0 + n / 4096, 0x80 + d1, 0x80 + d0], rest);
    } else {
      HeadIgnoresRest([0xF0 + d3, 0x80 + d2, 0x80 + d1, 0x80 + d0], rest);
    }
  }

  /** Only the bytes of the head sequence decide what the head decodes to. */
  lemma HeadIgnoresRest(head: seq<Byte>, rest: seq<Byte>)
    requires DecodeHead(head).Some? && DecodeHead(head).value.1 == |head|
    ensures DecodeHead(head + rest) == DecodeHead(head)
  {
    var b := head + rest;
    assert forall i :: 0 <= i < |head| ==> b[i] == head[i];
  }

  lemma DecodeChar(c: char, rest: seq<Byte>)
    ensures DecodeIgnoring(EncodeChar(c) + rest) == [c] + DecodeIgnoring(rest)
  {
    DecodeHeadOfEncoded(c, rest);
    assert (EncodeChar(c) + rest)[|EncodeChar(c)|..] == rest;
  }

  /** Decoding undoes encoding, whatever follows. */
  lemma {:induction false} DecodeEncode(s: string, rest: seq<Byte>)
    ensures DecodeIgnoring(Encode(s) + rest) == s + DecodeIgnoring(rest)
  {
    hide DecodeIgnoring, EncodeChar;
    if s == [] {
      assert Encode(s) + rest == rest;
    } else {
      var tail := Encode(s[1..]) + rest;
      assert Encode(s) + rest == EncodeChar(s[0]) + tail;
      DecodeChar(s[0], tail);
      DecodeEncode(s[1..], rest);
      assert [s[0]] + (s[1..] + DecodeIgnoring(rest)) == s + DecodeIgnoring(rest);
    }
  }

  lemma DecodeOfEncode(s: string)
    ensures DecodeIgnoring(Encode(s)) == s
  {
    DecodeEncode(s, []);
    assert Encode(s) + [] == Encode(s);
    assert s + [] == s;
  }

  lemma EncodeIsInjective(s: string, t: string)
    ensures Encode(s) == Encode(t) ==> s == t
  {
    DecodeOfEncode(s);
    DecodeOfEncode(t);
  }

  lemma {:induction false} EncodeAppend(s: string, t: string)
    ensures Encode(s + t) == Encode(s) + Encode(t)
  {
    if s == [] {
      assert s + t == t;
    } else {
      EncodeAppend(s[1..], t);
      assert (s + t)[0] == s[0] && (s + t)[1..] == s[1..] + t;
    }
  }

  lemma {:induction false} ContinuationBytesVanish(b: seq<Byte>)
    requires forall i :: 0 <= i < |b| ==> 0x80 <= b[i] <= 0xBF
    ensures DecodeIgnoring(b) == []
  {
    if b != [] {
      ContinuationBytesVanish(b[1..]);
    }
  }

  /** A sequence cut short decodes to nothing at all. */
  lemma TruncatedCharVanishes(c: char, k: nat)
    requires k < |EncodeChar(c)|
    ensures DecodeIgnoring(EncodeChar(c)[..k]) == []
  {
    var b := EncodeChar(c)[..k];
    if k >= 1 {
      assert DecodeHead(b) == None;
      ContinuationBytesVanish(b[1..]);
    }
  }

  /** Nothing of a text fits into less than its first character takes. */
  lemma FirstCharNeeds(s: string, q: string)
    requires s != [] && q != [] && q <= s
    ensures |Encode(q)| >= |EncodeChar(s[0])|
  {
    assert q[0] == s[0];
  }

  /** Prefixes of a text are its first character before prefixes of the rest. */
  lemma PrefixTail(s: string, q: string)
    requires s != [] && q != [] && q <= s
    ensures q[1..] <= s[1..] && |Encode(q)| == |EncodeChar(s[0])| + |Encode(q[1..])|
  {
    assert q[0] == s[0];
  }

  /** Cutting the bytes of `s` at any point and decoding leaves a prefix of `s` that fits, and no longer one fits. */
  lemma {:induction false} CutDecodesToLongestPrefix(s: string, k: nat)
    requires k <= |Encode(s)|
    ensures var p := DecodeIgnoring(Encode(s)[..k]);
            && p <= s
            && |Encode(p)| <= k
            && forall q: string :: q <= s && |Encode(q)| <= k ==> |q| <= |p|
  {
    hide EncodeChar, DecodeIgnoring, DecodeHead;
    if s == [] {
      assert Encode(s)[..k] == [];
      TruncatedCharVanishes('a', 0);
      assert EncodeChar('a')[..0] == [];
    } else {
      var head, tail := EncodeChar(s[0]), s[1..];
      if k < |head| {
        assert Encode(s)[..k] == head[..k];
        TruncatedCharVanishes(s[0], k);
        forall q: string | q <= s && |Encode(q)| <= k ensures |q| <= 0 {
          if q != [] {
            FirstCharNeeds(s, q);
          }
        }
      } else {
        var cut := Encode(tail)[..k - |head|];
        assert Encode(s)[..k] == head + cut;
        DecodeChar(s[0], cut);
        CutDecodesToLongestPrefix(tail, k - |head|);
        var p := DecodeIgnoring(cut);
        PrefixTail(s, [s[0]] + p);
        assert ([s[0]] + p)[1..] == p;
        forall q: string | q <= s && |Encode(q)| <= k ensures |q| <= 1 + |p| {
          if q != [] {
            PrefixTail(s, q);
          }
        }
      }
    }
  }
}
