/**
 The bearer substitution: it works on both sides of a replacement by itself, leaves what holds no token of a match as it
 is, and takes the token of a bearer scheme behind a blank, a quote or a colon as a whole.
 */
module BearerPattern {
  import opened Options
  import opened PythonText
  import opened InlineRedaction
  import opened RedactionTwice
  import opened SecretRemoval
  import opened CredentialRemoval

  /** The end of a replacement. */
  predicate IsWall(wall: string) {
    wall != [] && wall[|wall| - 1] == ']'
  }

  lemma Regroup4(a: string, b: string, c: string, d: string)
    ensures a + b + (c + d) == a + b + c + d
  {
  }

  lemma SubStep(u: Unicode, s: string, i: nat)
    requires i < |s| && !BearerAt(u, s, i)
    ensures SubBearer(u, s, i) == [s[i]] + SubBearer(u, s, i + 1)
  {
    hide BearerAt, BearerHead, SubBearer;
    SubFrom(u, s, i);
    SubFrom(u, s, i + 1);
    var next := NextBearer(u, s, i + 1);
    assert NextBearer(u, s, i) == next;
    if next.Some? {
      var from := MatchOf(u, s, next.value).0;
      assert s[i..next.value + from] == [s[i]] + s[i + 1..next.value + from];
      Regroup([s[i]], s[i + 1..next.value + from], REDACTED, SubBearer(u, s, next.value + MatchOf(u, s, next.value).1));
    } else {
      assert s[i..] == [s[i]] + s[i + 1..];
    }
  }

  lemma SubFrom(u: Unicode, s: string, i: nat)
    requires i <= |s|
    ensures var next := NextBearer(u, s, i);
            SubBearer(u, s, i) == if next.None? then s[i..]
                                  else var (from, to) := MatchOf(u, s, next.value);
                                       s[i..next.value + from] + REDACTED + SubBearer(u, s, next.value + to)
  {
    hide NextBearer, BearerHead;
  }

  /** Where the token of a match starts and ends, counted from the match. */
  function MatchOf(u: Unicode, s: string, i: nat): (r: (nat, nat))
    requires i <= |s| && BearerAt(u, s, i)
    ensures 6 < r.0 < r.1 <= |s| - i && BearerHead(s[i..]) == Some(r)
  {
    BearerHead(s[i..]).value
  }

  lemma SubMatch(u: Unicode, s: string, i: nat)
    requires i <= |s| && BearerAt(u, s, i)
    ensures var (from, to) := MatchOf(u, s, i); SubBearer(u, s, i) == s[i..i + from] + REDACTED + SubBearer(u, s, i + to)
  {
    hide BearerHead;
  }

  /** No match starts here, whatever stands in front. */
  predicate NoMatchAt(s: string, i: nat)
    requires i <= |s|
  {
    i == |s| || !MatchesLetter(s[i], 'b')
  }

  lemma MatchStartsWithLetter(u: Unicode, s: string, i: nat)
    requires i <= |s| && NoMatchAt(s, i)
    ensures !BearerAt(u, s, i)
  {
  }

  /** Behind no word character, or in front of no match, the substitution forgets what is in front. */
  lemma {:induction false} SubShift(u: Unicode, front: string, s: string, i: nat)
    requires i <= |s| && (front == [] || !IsWordChar(u, front[|front| - 1]) || i > 0 || NoMatchAt(s, 0))
    ensures SubBearer(u, front + s, |front| + i) == SubBearer(u, s, i)
    decreases |s| - i
  {
    hide BearerAt, BearerHead, MatchesLetter, IsWordChar, SubBearer;
    var t := front + s;
    MatchIsTheSame(u, front, s, i);
    if BearerAt(u, s, i) {
      assert t[|front| + i..] == s[i..];
      SubMatch(u, s, i);
      SubMatch(u, t, |front| + i);
      var (from, to) := MatchOf(u, s, i);
      assert t[|front| + i..|front| + i + from] == s[i..i + from];
      SubShift(u, front, s, i + to);
    } else if i < |s| {
      SubStep(u, s, i);
      SubStep(u, t, |front| + i);
      SubShift(u, front, s, i + 1);
    } else {
      SubBearerHead(u, s, i);
      SubBearerHead(u, t, |front| + i);
    }
  }

  lemma MatchIsTheSame(u: Unicode, front: string, s: string, i: nat)
    requires i <= |s| && (front == [] || !IsWordChar(u, front[|front| - 1]) || i > 0 || NoMatchAt(s, 0))
    ensures BearerAt(u, front + s, |front| + i) <==> BearerAt(u, s, i)
  {
    hide BearerHead, IsWordChar, MatchesLetter;
    var t := front + s;
    assert t[|front| + i..] == s[i..];
    if i == 0 && NoMatchAt(s, 0) {
      MatchStartsWithLetter(u, s, 0);
      MatchStartsWithLetter(u, t, |front|);
    }
  }

  /** A match in front of the end of a replacement ends there at the latest. */
  lemma HeadAtWall(t: string, s: string)
    requires IsWall(t)
    ensures BearerHead(t + s) == BearerHead(t)
  {
    if |t| <= 6 {
      assert (t + s)[|t| - 1] == ']';
    } else {
      LongHeadAtWall(t, s);
    }
  }

  lemma LongHeadAtWall(t: string, s: string)
    requires IsWall(t) && |t| > 6
    ensures BearerHead(t + s) == BearerHead(t)
  {
    hide Skip, MatchesWord;
    var end := |t| - 1;
    assert (t + s)[..6] == t[..6];
    SkipWithin(IsSpace, t, 6, end);
    SkipAcross(IsSpace, t, s, 6);
    var from := Skip(IsSpace, t, 6);
    SkipWithin(IsTokenChar, t, from, end);
    SkipAcross(IsTokenChar, t, s, from);
  }

  lemma MatchAtWall(u: Unicode, wall: string, s: string, i: nat)
    requires IsWall(wall) && i < |wall|
    ensures BearerAt(u, wall + s, i) <==> BearerAt(u, wall, i)
    ensures BearerAt(u, wall, i) ==> MatchOf(u, wall + s, i) == MatchOf(u, wall, i)
  {
    hide BearerHead;
    assert (wall + s)[i..] == wall[i..] + s;
    HeadAtWall(wall[i..], s);
  }

  /** The substitution, too, works on both sides of the end of a replacement by itself. */
  lemma {:induction false} SubSplitsAtWall(u: Unicode, wall: string, s: string, i: nat)
    requires IsWall(wall) && i <= |wall| && !IsWordChar(u, ']')
    ensures SubBearer(u, wall + s, i) == SubBearer(u, wall, i) + SubBearer(u, s, 0)
    decreases |wall| - i
  {
    hide BearerAt, BearerHead, IsWordChar, SubBearer;
    var t := wall + s;
    if i == |wall| {
      SubShift(u, wall, s, 0);
      SubBearerHead(u, wall, i);
    } else {
      MatchAtWall(u, wall, s, i);
      if BearerAt(u, wall, i) {
        SubMatch(u, wall, i);
        SubMatch(u, t, i);
        var (from, to) := MatchOf(u, wall, i);
        assert t[i..i + from] == wall[i..i + from];
        SubSplitsAtWall(u, wall, s, i + to);
        Regroup4(wall[i..i + from], REDACTED, SubBearer(u, wall, i + to), SubBearer(u, s, 0));
      } else {
        SubStep(u, wall, i);
        SubStep(u, t, i);
        SubSplitsAtWall(u, wall, s, i + 1);
      }
    }
  }

  // ----- a credential that stays -----

  predicate WordBeforeSpace(b: string, i: nat) {
    i + 6 < |b| && IsSpace(b[i + 6]) && MatchesWord(b[i..i + 6], "bearer")
  }

  /** No match of the pattern has its token in this text. */
  ghost predicate IsNoBearer(b: string) {
    forall i: nat :: !WordBeforeSpace(b, i)
  }

  lemma MatchIsWord(u: Unicode, b: string, r: string, i: nat)
    requires i + 6 < |b| && BearerAt(u, b + r, i)
    ensures WordBeforeSpace(b, i)
  {
    hide MatchesWord;
    var t := (b + r)[i..];
    SkipMoves(t);
    assert t[..6] == b[i..i + 6] && t[6] == b[i + 6];
  }

  lemma MatchReachesBehind(u: Unicode, b: string, r: string, i: nat)
    requires IsNoBearer(b) && i < |b| && BearerAt(u, b + r, i)
    ensures i + MatchOf(u, b + r, i).0 > |b|
  {
    hide MatchesWord, BearerAt, BearerHead, WordBeforeSpace;
    if i + 6 < |b| {
      MatchIsWord(u, b, r, i);
    }
  }

  lemma SkipMoves(t: string)
    requires |t| >= 6 && Skip(IsSpace, t, 6) > 6
    ensures IsSpace(t[6])
  {
  }

  /** A text without a token of a match stays in front of what the substitution makes of the rest. */
  lemma {:induction false} SubKeeps(u: Unicode, b: string, r: string, i: nat) returns (after: string)
    requires IsNoBearer(b) && Bounded(r) && i <= |b|
    ensures SubBearer(u, b + r, i) == b[i..] + after && Bounded(after)
    decreases |b| - i
  {
    hide BearerAt, BearerHead, SubBearer, IsNoBearer;
    var s := b + r;
    if i == |b| {
      after := SubBearer(u, s, i);
      SubBearerHead(u, s, i);
    } else if BearerAt(u, s, i) {
      MatchReachesBehind(u, b, r, i);
      SubMatch(u, s, i);
      var (from, to) := MatchOf(u, s, i);
      after := s[|b|..i + from] + REDACTED + SubBearer(u, s, i + to);
      assert s[i..i + from] == b[i..] + s[|b|..i + from];
      Regroup(b[i..], s[|b|..i + from], REDACTED, SubBearer(u, s, i + to));
    } else {
      after := SubKeeps(u, b, r, i + 1);
      SubStep(u, s, i);
      assert [s[i]] + (b[i + 1..] + after) == b[i..] + after;
    }
  }

  /** What stands in front of the scheme: blanks and quotes, or the closing quote and the colon of a marker. */
  predicate IsBefore(pre: string) {
    forall i :: 0 <= i < |pre| ==> pre[i] == ' ' || pre[i] == '\'' || pre[i] == '"' || pre[i] == ':'
  }

  /** The four parts of the text, position by position. */
  lemma PartAt(pre: string, scheme: string, gap: string, v: string, i: nat)
    requires i < |pre + scheme + gap + v|
    ensures var s := pre + scheme + gap + v; var b := |pre|; var c := b + |scheme|; var d := c + |gap|;
            s[i] == if i < b then pre[i] else if i < c then scheme[i - b] else if i < d then gap[i - c] else v[i - d]
  {
  }

  lemma NoWordInGap(gap: string, v: string)
    requires All(IsSpace, gap) && All(IsSolid, v)
    ensures IsNoBearer(gap + v)
  {
    var b := gap + v;
    forall i: nat ensures !WordBeforeSpace(b, i) {
      if i + 6 < |b| && IsSpace(b[i + 6]) {
        assert i + 6 < |gap|;
        assert b[i] == gap[i] && b[i..i + 6][0] == b[i];
      }
    }
  }

  /** A scheme has no white space, and one that is longer than the word of the pattern has a dash in the way. */
  predicate IsSchemeText(scheme: string) {
    (forall i :: 0 <= i < |scheme| ==> !IsSpace(scheme[i])) && (|scheme| > 6 ==> |scheme| == 7 && scheme[3] == '-')
  }

  lemma SchemeText(u: Unicode, scheme: string)
    requires FoldsWords(u) && IsScheme(Lower(u, scheme))
    ensures IsSchemeText(scheme)
  {
    hide Lower, IsScheme;
    SchemeCharacters(u, scheme);
    if |scheme| > 6 {
      SchemeHasDash(u, scheme);
    }
  }

  lemma NoWordAt(pre: string, scheme: string, gap: string, v: string, i: nat)
    requires (forall k :: 0 <= k < |pre| ==> !IsLetter(pre[k])) && IsSchemeText(scheme) && All(IsSpace, gap) && All(IsSolid, v)
    requires !MatchesWord(scheme, "bearer")
    ensures !WordBeforeSpace(pre + scheme + gap + v, i)
  {
    hide MatchesWord;
    var s, b, k := pre + scheme + gap + v, |pre|, i + 6;
    var c := b + |scheme|;
    if k < |s| && IsSpace(s[k]) {
      PartAt(pre, scheme, gap, v, k);
      if k != c {
        PartAt(pre, scheme, gap, v, k - 1);
        NotWordAt(s, i, 5);
      } else if i < b {
        PartAt(pre, scheme, gap, v, i);
        NotWordAt(s, i, 0);
      } else if i == b {
        assert s[i..k] == scheme;
      } else {
        PartAt(pre, scheme, gap, v, i + 2);
        NotWordAt(s, i, 2);
      }
    }
  }

  lemma NotWordAt(s: string, i: nat, k: nat)
    requires k < 6 && i + 6 <= |s| && !IsLetter(s[i + k])
    ensures !MatchesWord(s[i..i + 6], "bearer")
  {
    assert s[i..i + 6][k] == s[i + k];
  }

  predicate IsLetter(c: char) { 'a' <= c <= 'z' || 'A' <= c <= 'Z' }

  lemma SchemeHasDash(u: Unicode, scheme: string)
    requires FoldsWords(u) && IsScheme(Lower(u, scheme)) && |scheme| > 6
    ensures |scheme| == 7 && scheme[3] == '-'
  {
    assert Lower(u, scheme)[3] == '-';
  }

  // ----- a bearer token that the substitution takes -----

  lemma {:induction false} SubOverPlain(u: Unicode, pre: string, s: string, i: nat)
    requires i <= |pre| && forall k :: 0 <= k < |pre| ==> !IsLetter(pre[k])
    ensures SubBearer(u, pre + s, i) == pre[i..] + SubBearer(u, pre + s, |pre|)
    decreases |pre| - i
  {
    hide BearerAt, BearerHead, SubBearer;
    if i < |pre| {
      assert (pre + s)[i] == pre[i];
      MatchStartsWithLetter(u, pre + s, i);
      SubStep(u, pre + s, i);
      SubOverPlain(u, pre, s, i + 1);
      assert [pre[i]] + (pre[i + 1..] + SubBearer(u, pre + s, |pre|)) == pre[i..] + SubBearer(u, pre + s, |pre|);
    }
  }

  lemma TokenIsMatch(u: Unicode, word: string, gap: string, v: string, r: string)
    requires MatchesWord(word, "bearer") && gap != [] && All(IsSpace, gap) && v != [] && All(IsTokenChar, v)
    requires r == [] || !IsTokenChar(r[0])
    ensures BearerHead(word + gap + v + r) == Some((6 + |gap|, 6 + |gap| + |v|))
  {
    hide MatchesWord, Skip;
    var t := word + gap + v + r;
    WordLength(word);
    assert t[..6] == word;
    assert t == word + gap + (v + r);
    SkipRun(IsSpace, word, gap, v + r);
    SkipRun(IsTokenChar, word + gap, v, r);
  }

  /** The characters of a token: letters, digits and six signs, and what case folding takes for `i`, `s` and `k`. */
  predicate IsOfToken(c: char) {
    || 'a' <= c <= 'z' || 'A' <= c <= 'Z' || '0' <= c <= '9'
    || c == '.' || c == '_' || c == '-' || c == '+' || c == '/' || c == '='
    || c == '\U{130}' || c == '\U{131}' || c == '\U{17F}' || c == '\U{212A}'
  }

  /** Where no word runs into it, the word, white space and a token as long as it goes: the token is replaced. */
  lemma BearerIsReplaced(u: Unicode, front: string, word: string, gap: string, v: string, rest: string)
    requires front == [] || !(u.isAlnum(front[|front| - 1]) || front[|front| - 1] == '_')
    requires MatchesWord(word, "bearer") && gap != [] && All(IsSpace, gap)
    requires v != [] && All(IsOfToken, v) && (rest == [] || !IsOfToken(rest[0]))
    ensures var s := front + (word + gap + v + rest);
            SubBearer(u, s, |front|) == word + gap + "[REDACTED]" + SubBearer(u, s, |front + word + gap + v|)
  {
    hide BearerHead, SubBearer, MatchesWord, IsSpace;
    var x := word + gap + v + rest;
    var s := front + x;
    assert forall c :: IsOfToken(c) <==> IsTokenChar(c);
    TokenIsMatch(u, word, gap, v, rest);
    WordLength(word);
    assert s[|front|..] == x;
    SubMatch(u, s, |front|);
    assert s[|front|..|front| + 6 + |gap|] == word + gap;
  }

  /** Behind a letter, a digit or an underscore no match starts. */
  lemma InsideWordNothingStarts(u: Unicode, s: string, i: nat)
    requires 0 < i < |s| && (u.isAlnum(s[i - 1]) || s[i - 1] == '_')
    ensures SubBearer(u, s, i) == [s[i]] + SubBearer(u, s, i + 1)
  {
    SubStep(u, s, i);
  }

  lemma TokenIsTaken(u: Unicode, word: string, gap: string, v: string, r: string)
    requires MatchesWord(word, "bearer") && gap != [] && All(IsSpace, gap) && v != [] && All(IsTokenChar, v) && Bounded(r)
    ensures SubBearer(u, word + gap + v + r, 0) == word + gap + REDACTED + SubBearer(u, r, 0)
  {
    hide BearerHead, SubBearer, MatchesWord, IsTokenChar, IsSpace, NoMatchAt;
    var x := word + gap + v + r;
    NoMatchBehindValue(r);
    TokenIsMatch(u, word, gap, v, r);
    WordLength(word);
    assert x[0..] == x;
    SubMatch(u, x, 0);
    assert x[0..6 + |gap|] == word + gap;
    SubShift(u, word + gap + v, r, 0);
  }

  lemma NoMatchBehindValue(r: string)
    requires Bounded(r)
    ensures NoMatchAt(r, 0) && (r == [] || !IsTokenChar(r[0]))
  {
  }

  lemma BeforeIsNoWord(u: Unicode, pre: string)
    requires FoldsWords(u) && pre != [] && IsBefore(pre)
    ensures !IsWordChar(u, pre[|pre| - 1]) && forall k :: 0 <= k < |pre| ==> !IsLetter(pre[k])
  {
  }

  /** Behind a blank, a quote or a colon the substitution takes the token of a bearer scheme as a whole. */
  lemma BearerIsTaken(u: Unicode, pre: string, word: string, gap: string, v: string, r: string)
    requires FoldsWords(u) && pre != [] && IsBefore(pre) && MatchesWord(word, "bearer")
    requires gap != [] && All(IsSpace, gap) && v != [] && All(IsTokenChar, v) && Bounded(r)
    ensures SubBearer(u, pre + word + gap + v + r, 0) == pre + word + gap + REDACTED + SubBearer(u, r, 0)
  {
    hide FoldsWords, SubBearer, MatchesWord, All, IsBefore, Bounded, IsWordChar, IsLetter;
    var x := word + gap + v + r;
    assert pre + word + gap + v + r == pre + x;
    BeforeIsNoWord(u, pre);
    SubOverPlain(u, pre, x, 0);
    SubShift(u, pre, x, 0);
    TokenIsTaken(u, word, gap, v, r);
    assert pre + (word + gap + REDACTED + SubBearer(u, r, 0)) == pre + word + gap + REDACTED + SubBearer(u, r, 0);
  }

  lemma WordLength(word: string)
    requires MatchesWord(word, "bearer")
    ensures |word| == 6
  {
  }
}
