/** The operations of Python's `str` that the worker's text code uses. */
module PythonText {
  import opened Options

  /** `str.isspace` of one character, which is also what `\s` matches. */
  predicate IsSpace(c: char) {
    var n := c as int;
    9 <= n <= 13 || 28 <= n <= 32 || n == 0x85 || n == 0xA0 || n == 0x1680 || 0x2000 <= n <= 0x200A
    || n == 0x2028 || n == 0x2029 || n == 0x202F || n == 0x205F || n == 0x3000
  }

  /** Case-insensitive match of one lower-case letter, with the four letters outside ASCII that fold onto it. */
  predicate MatchesLetter(c: char, letter: char) {
    || c == letter
    || ('a' <= letter <= 'z' && c as int == letter as int - 32)
    || (letter == 'i' && (c == '\U{130}' || c == '\U{131}'))
    || (letter == 's' && c == '\U{17F}')
    || (letter == 'k' && c == '\U{212A}')
  }

  predicate MatchesWord(s: string, word: string) {
    |s| == |word| && forall i :: 0 <= i < |s| ==> MatchesLetter(s[i], word[i])
  }

  function Lstrip(s: string): (t: string)
    ensures t == [] || !IsSpace(t[0])
  {
    if s != [] && IsSpace(s[0]) then Lstrip(s[1..]) else s
  }

  function Rstrip(s: string): (t: string)
    ensures t <= s
    ensures t == [] || !IsSpace(t[|t| - 1])
  {
    if s != [] && IsSpace(s[|s| - 1]) then Rstrip(s[..|s| - 1]) else s
  }

  function Strip(s: string): (t: string) {
    Rstrip(Lstrip(s))
  }

  predicate All(class_: char -> bool, s: string) {
    forall i :: 0 <= i < |s| ==> class_(s[i])
  }

  predicate Without(s: string, c: char) {
    forall i :: 0 <= i < |s| ==> s[i] != c
  }

  lemma WithoutAt(s: string, c: char, i: nat)
    requires Without(s, c) && i < |s|
    ensures s[i] != c
  {
  }

  /** The first position of `c` at or after `start`. */
  function Find(s: string, c: char, start: nat): (i: Option<nat>)
    requires start <= |s|
    ensures i.Some? ==> start <= i.value < |s| && s[i.value] == c
    decreases |s| - start
  {
    if start == |s| then None
    else if s[start] == c then Some(start)
    else Find(s, c, start + 1)
  }

  lemma {:induction false} FindsFirst(s: string, c: char, start: nat)
    requires start <= |s|
    ensures var i := Find(s, c, start); Without(s[start..if i.Some? then i.value else |s|], c)
    decreases |s| - start
  {
    if start < |s| && s[start] != c {
      FindsFirst(s, c, start + 1);
      var i := Find(s, c, start);
      var end := if i.Some? then i.value else |s|;
      assert s[start..end] == [s[start]] + s[start + 1..end];
    }
  }

  /** `"".join(parts)` */
  function Join(parts: seq<string>): (s: string) {
    if parts == [] then [] else Join(parts[..|parts| - 1]) + parts[|parts| - 1]
  }

  lemma Regroup<T>(a: seq<T>, b: seq<T>, c: seq<T>, d: seq<T>)
    ensures a + b + c == a + (b + c)
    ensures a + b + c + d == a + (b + c + d)
  {
  }

  lemma JoinSnoc(parts: seq<string>, part: string)
    ensures Join(parts + [part]) == Join(parts) + part
  {
    assert (parts + [part])[..|parts|] == parts;
  }

  lemma {:induction false} JoinAppend(a: seq<string>, b: seq<string>)
    ensures Join(a + b) == Join(a) + Join(b)
  {
    if b == [] {
      assert a + b == a;
    } else {
      var init := b[..|b| - 1];
      JoinAppend(a, init);
      assert (a + b)[..|a + b| - 1] == a + init;
    }
  }

  lemma JoinCons(part: string, parts: seq<string>)
    ensures Join([part] + parts) == part + Join(parts)
  {
    JoinAppend([part], parts);
    assert Join([part]) == part;
  }

  /** Leading white space is all in front, so stripping a concatenation is stripping its first visible part. */
  lemma {:induction false} LstripAppend(a: string, b: string)
    ensures Lstrip(a + b) == if Lstrip(a) == [] then Lstrip(b) else Lstrip(a) + b
  {
    if a == [] {
      assert a + b == b;
    } else if IsSpace(a[0]) {
      LstripAppend(a[1..], b);
      assert (a + b)[1..] == a[1..] + b;
    }
  }

  lemma {:induction false} LstripIsSuffix(s: string) returns (k: nat)
    ensures k <= |s| && Lstrip(s) == s[k..] && forall i :: 0 <= i < k ==> IsSpace(s[i])
  {
    k := 0;
    if s != [] && IsSpace(s[0]) {
      var k' := LstripIsSuffix(s[1..]);
      k := k' + 1;
    }
  }

  lemma LstripTwice(s: string)
    ensures Lstrip(Lstrip(s)) == Lstrip(s)
  {
  }

  lemma {:induction false} RstripTwice(s: string)
    ensures Rstrip(Rstrip(s)) == Rstrip(s)
  {
  }

  /** A text that starts with a visible character keeps it when its end is stripped. */
  lemma {:induction false} RstripKeepsHead(s: string)
    requires s != [] && !IsSpace(s[0])
    ensures Rstrip(s) != [] && Rstrip(s)[0] == s[0]
  {
    if IsSpace(s[|s| - 1]) {
      RstripKeepsHead(s[..|s| - 1]);
    }
  }

  lemma StripTwice(s: string)
    ensures Strip(Strip(s)) == Strip(s)
    ensures Strip(Lstrip(s)) == Strip(s)
    ensures Strip(s) == [] <==> Lstrip(s) == []
  {
    LstripTwice(s);
    var t := Lstrip(s);
    if t != [] {
      RstripKeepsHead(t);
      assert Lstrip(Rstrip(t)) == Rstrip(t);
      RstripTwice(t);
    }
  }
}
