/**
 The streaming filter that hides what a model writes between reasoning tags: it is fed the
 text in arbitrary chunks, keeps an unfinished `<...` in its buffer and counts open tags.
 */
module ReasoningFilter {
  import opened Options
  import opened PythonText

  // ----- REASONING_TAG_PATTERN -----

  predicate IsReasoningWord(s: string) {
    MatchesWord(s, "analysis") || MatchesWord(s, "reasoning") || MatchesWord(s, "think") || MatchesWord(s, "thinking")
  }

  predicate IsTag(tag: string) {
    |tag| >= 2 && tag[0] == '<' && tag[|tag| - 1] == '>'
  }

  /** What stands between the brackets, from its first visible character on. */
  function TagBody(tag: string): (body: string)
    requires IsTag(tag)
  {
    Lstrip(tag[1..|tag| - 1])
  }

  predicate IsClosingTag(tag: string) {
    IsTag(tag) && TagBody(tag) != [] && TagBody(tag)[0] == '/'
  }

  predicate IsReasoningTag(tag: string) {
    IsTag(tag) && IsReasoningWord(Strip(if IsClosingTag(tag) then TagBody(tag)[1..] else TagBody(tag)))
  }

  // ----- the pattern -----

  /** `<\s*(/?)\s*(analysis|reasoning|think|thinking)\s*>` with what its parts match. */
  predicate MatchesPattern(tag: string, a: string, slash: string, b: string, word: string, c: string) {
    && tag == "<" + a + slash + b + word + c + ">"
    && All(IsSpace, a) && All(IsSpace, b) && All(IsSpace, c) && (slash == "" || slash == "/")
    && (MatchesWord(word, "analysis") || MatchesWord(word, "reasoning") || MatchesWord(word, "think") || MatchesWord(word, "thinking"))
  }

  lemma {:induction false} LstripOver(a: string, s: string)
    requires All(IsSpace, a) && (s == [] || !IsSpace(s[0]))
    ensures Lstrip(a + s) == s
  {
    if a == [] {
      assert a + s == s;
    } else {
      assert (a + s)[1..] == a[1..] + s;
      LstripOver(a[1..], s);
    }
  }

  lemma {:induction false} RstripOver(s: string, c: string)
    requires All(IsSpace, c) && (s == [] || !IsSpace(s[|s| - 1]))
    ensures Rstrip(s + c) == s
  {
    if c == [] {
      assert s + c == s;
    } else {
      assert (s + c)[..|s + c| - 1] == s + c[..|c| - 1];
      RstripOver(s, c[..|c| - 1]);
    }
  }

  lemma {:induction false} LstripRest(s: string) returns (a: string)
    ensures s == a + Lstrip(s) && All(IsSpace, a)
  {
    if s != [] && IsSpace(s[0]) {
      var more := LstripRest(s[1..]);
      a := [s[0]] + more;
      assert s == [s[0]] + s[1..];
    } else {
      a := [];
    }
  }

  lemma {:induction false} RstripRest(s: string) returns (c: string)
    ensures s == Rstrip(s) + c && All(IsSpace, c)
  {
    if s != [] && IsSpace(s[|s| - 1]) {
      var more := RstripRest(s[..|s| - 1]);
      c := more + [s[|s| - 1]];
      assert s == s[..|s| - 1] + [s[|s| - 1]];
    } else {
      c := [];
    }
  }

  lemma WordIsVisible(word: string)
    requires IsReasoningWord(word)
    ensures word != [] && word[0] != '/' && !IsSpace(word[0]) && !IsSpace(word[|word| - 1])
  {
    WordsAreLetters(word, if MatchesWord(word, "analysis") then "analysis" else if MatchesWord(word, "reasoning") then "reasoning"
                          else if MatchesWord(word, "think") then "think" else "thinking");
  }

  lemma WordsAreLetters(word: string, pattern: string)
    requires MatchesWord(word, pattern) && pattern in {"analysis", "reasoning", "think", "thinking"}
    ensures word != [] && word[0] != '/' && !IsSpace(word[0]) && !IsSpace(word[|word| - 1])
  {
    assert MatchesLetter(word[0], pattern[0]) && MatchesLetter(word[|word| - 1], pattern[|pattern| - 1]);
  }

  lemma StripOver(b: string, word: string, c: string)
    requires All(IsSpace, b) && All(IsSpace, c) && IsReasoningWord(word)
    ensures Lstrip(b + word + c) == word + c && Strip(b + word + c) == word
  {
    hide IsReasoningWord, IsSpace;
    WordIsVisible(word);
    assert b + word + c == b + (word + c);
    LstripOver(b, word + c);
    RstripOver(word, c);
  }

  /** A tag that matches the pattern is a reasoning tag, and a closing one if there is a slash. */
  lemma PatternIsTag(tag: string, a: string, slash: string, b: string, word: string, c: string)
    requires MatchesPattern(tag, a, slash, b, word, c)
    ensures IsReasoningTag(tag) && (IsClosingTag(tag) <==> slash == "/")
  {
    hide IsReasoningWord, All, Strip, Lstrip, MatchesWord, IsSpace;
    IsWord(word);
    var inner := a + slash + b + word + c;
    assert tag[1..|tag| - 1] == inner;
    WordIsVisible(word);
    StripOver(b, word, c);
    if slash == "/" {
      assert inner == a + ("/" + (b + word + c));
      SlashIsVisible();
      LstripOver(a, "/" + (b + word + c));
      assert ("/" + (b + word + c))[1..] == b + word + c;
    } else {
      SpacesTogether(a, b);
      assert inner == (a + b) + word + c;
      StripOver(a + b, word, c);
      NoSpaces();
      StripOver([], word, c);
      assert [] + word + c == word + c;
    }
  }

  lemma IsWord(word: string)
    requires MatchesWord(word, "analysis") || MatchesWord(word, "reasoning") || MatchesWord(word, "think") || MatchesWord(word, "thinking")
    ensures IsReasoningWord(word)
  {
    hide MatchesWord;
  }

  lemma SlashIsVisible()
    ensures !IsSpace('/')
  {
  }

  lemma NoSpaces()
    ensures All(IsSpace, [])
  {
  }

  lemma SpacesTogether(a: string, b: string)
    requires All(IsSpace, a) && All(IsSpace, b)
    ensures All(IsSpace, a + b)
  {
  }

  /** A tag is a reasoning tag if and only if it matches the pattern. */
  lemma ReasoningTagIffPattern(tag: string)
    ensures IsReasoningTag(tag) <==> exists a, slash, b, word, c :: MatchesPattern(tag, a, slash, b, word, c)
  {
    hide IsReasoningTag, MatchesPattern;
    if IsReasoningTag(tag) {
      var a, slash, b, word, c := PatternOf(tag);
    }
    forall a, slash, b, word, c | MatchesPattern(tag, a, slash, b, word, c) ensures IsReasoningTag(tag) {
      PatternIsTag(tag, a, slash, b, word, c);
    }
  }

  lemma PatternOf(tag: string) returns (a: string, slash: string, b: string, word: string, c: string)
    requires IsReasoningTag(tag)
    ensures MatchesPattern(tag, a, slash, b, word, c)
  {
    hide Lstrip, Rstrip, MatchesWord, All, IsSpace;
    var inner, body := tag[1..|tag| - 1], TagBody(tag);
    a := LstripRest(inner);
    var named;
    slash, named := Slash(tag);
    b := LstripRest(named);
    c := RstripRest(Lstrip(named));
    word := Strip(named);
    assert tag == "<" + inner + ">";
    Parts5(inner, a, body, slash, named, b, word, c);
  }

  lemma Slash(tag: string) returns (slash: string, named: string)
    requires IsReasoningTag(tag)
    ensures TagBody(tag) == slash + named && (slash == "" || slash == "/") && IsReasoningWord(Strip(named))
  {
    hide Strip, IsReasoningWord;
    var body := TagBody(tag);
    slash, named := if IsClosingTag(tag) then "/" else "", if IsClosingTag(tag) then body[1..] else body;
  }

  lemma Parts5(inner: string, a: string, body: string, slash: string, named: string, b: string, word: string, c: string)
    requires inner == a + body && body == slash + named && named == b + (word + c)
    ensures "<" + inner + ">" == "<" + a + slash + b + word + c + ">"
  {
  }

  // ----- one scan -----

  datatype Scanned = Scanned(visible: string, buffer: string, depth: nat)

  /** A scan whose visible text comes behind what is already visible. */
  function Resume(visible: string, s: Scanned): (r: Scanned) {
    s.(visible := visible + s.visible)
  }

  function Shown(depth: nat, text: string): (s: string) {
    if depth == 0 then text else []
  }

  /** Nothing is shown of a reasoning tag itself. */
  function ShownTag(depth: nat, tag: string): (s: string) {
    if IsReasoningTag(tag) then [] else Shown(depth, tag)
  }

  function DepthAfter(depth: nat, tag: string): (d: nat) {
    if !IsReasoningTag(tag) then depth
    else if !IsClosingTag(tag) then depth + 1
    else if depth == 0 then 0 else depth - 1
  }

  /** A text cut at its first `<` and the `>` that follows it. */
  datatype Parts = NoTag(text: string) | OpenTag(text: string, open: string) | WithTag(text: string, tag: string, rest: string)

  function Split(s: string): (p: Parts)
    ensures p.WithTag? ==> |p.rest| < |s|
  {
    match Find(s, '<', 0)
    case None => NoTag(s)
    case Some(i) =>
      match Find(s, '>', i + 1)
      case None => OpenTag(s[..i], s[i..])
      case Some(j) => WithTag(s[..i], s[i..j + 1], s[j + 1..])
  }

  predicate IsSplit(s: string, p: Parts) {
    && Without(p.text, '<')
    && match p
       case NoTag(text) => s == text
       case OpenTag(text, open) => s == text + open && open != [] && open[0] == '<' && Without(open[1..], '>')
       case WithTag(text, tag, rest) => s == text + tag + rest && IsTag(tag) && Without(tag[1..|tag| - 1], '>')
  }

  lemma InsideOfSlice(s: string, i: nat, j: nat)
    requires i < j < |s|
    ensures s[i..j + 1][1..j - i] == s[i + 1..j]
  {
    var t, inside := s[i..j + 1], s[i + 1..j];
    var u := t[1..j - i];
    forall k | 0 <= k < j - i - 1 ensures u[k] == inside[k] {
      assert u[k] == t[k + 1];
    }
  }

  lemma SplitIsSplit(s: string)
    ensures IsSplit(s, Split(s))
  {
    FindsFirst(s, '<', 0);
    hide Find, Without;
    var start := Find(s, '<', 0);
    if start.None? {
      assert s[0..|s|] == s;
    } else {
      var i := start.value;
      assert s[0..i] == s[..i];
      FindsFirst(s, '>', i + 1);
      var end := Find(s, '>', i + 1);
      if end.None? {
        assert s[i..][1..] == s[i + 1..|s|];
      } else {
        var j := end.value;
        InsideOfSlice(s, i, j);
        assert s == s[..i] + s[i..j + 1] + s[j + 1..];
      }
    }
  }

  /** There is only one way to cut a text like that. */
  lemma SplitUnique(s: string, p: Parts)
    requires IsSplit(s, p)
    ensures Split(s) == p
  {
    SplitIsSplit(s);
    hide Split;
    var q := Split(s);
    SameText(s, p, q);
    match p
    case NoTag(_) =>
    case OpenTag(text, open) =>
      assert s[|text|..] == open;
      if q.WithTag? {
        assert q.tag + q.rest == open by {
          assert s[|text|..] == q.tag + q.rest;
        }
        OpenIsNoTag(open, q.tag, q.rest);
      }
    case WithTag(text, tag, rest) =>
      assert s[|text|..] == tag + rest;
      if q.OpenTag? {
        OpenIsNoTag(q.open, tag, rest);
      }
      assert q.tag + q.rest == tag + rest;
      SameTag(tag + rest, tag, rest, q.tag, q.rest);
  }

  lemma OpenIsNoTag(open: string, tag: string, rest: string)
    requires open != [] && Without(open[1..], '>') && IsTag(tag)
    ensures open != tag + rest
  {
    assert (tag + rest)[1..][|tag| - 2] == '>';
  }

  lemma SameTag(s: string, tag: string, rest: string, tag': string, rest': string)
    requires IsTag(tag) && Without(tag[1..|tag| - 1], '>') && s == tag + rest
    requires IsTag(tag') && Without(tag'[1..|tag'| - 1], '>') && s == tag' + rest'
    ensures tag == tag' && rest == rest'
  {
    assert tag == s[..|tag|] && rest == s[|tag|..] && tag' == s[..|tag'|] && rest' == s[|tag'|..];
    NotLonger(s, |tag|, |tag'|);
    NotLonger(s, |tag'|, |tag|);
  }

  /** An initial part ending in `>` is not shorter than one with no `>` inside. */
  lemma NotLonger(s: string, k: nat, n: nat)
    requires 2 <= k <= |s| && 2 <= n <= |s| && s[k - 1] == '>' && Without(s[..n][1..n - 1], '>')
    ensures n <= k
  {
    hide Without;
    if k < n {
      WithoutAt(s[..n][1..n - 1], '>', k - 2);
    }
  }

  lemma SameText(s: string, p: Parts, q: Parts)
    requires IsSplit(s, p) && IsSplit(s, q)
    ensures p.text == q.text && (p.NoTag? <==> q.NoTag?)
  {
    assert |p.text| <= |s| && p.text == s[..|p.text|];
    assert |q.text| <= |s| && q.text == s[..|q.text|];
    assert !p.NoTag? ==> s[|p.text|] == '<';
    assert !q.NoTag? ==> s[|q.text|] == '<';
  }

  function Scan(source: string, depth: nat, final: bool): (r: Scanned)
    decreases |source|
  {
    match Split(source)
    case NoTag(text) => Scanned(Shown(depth, text), [], depth)
    case OpenTag(text, open) =>
      if final then Scanned(Shown(depth, text) + Shown(depth, open), [], depth)
      else Scanned(Shown(depth, text), open, depth)
    case WithTag(text, tag, rest) =>
      Resume(Shown(depth, text) + ShownTag(depth, tag), Scan(rest, DepthAfter(depth, tag), final))
  }

  /** The filter between two feeds. */
  datatype Filter = Filter(buffer: string, depth: nat)

  const FRESH := Filter([], 0)

  function Fed(f: Filter, content: string, final: bool): (r: (string, Filter)) {
    var s := Scan(f.buffer + content, f.depth, final);
    (s.visible, if final then FRESH else Filter(s.buffer, s.depth))
  }

  function StripReasoningContent(content: string): (s: string) {
    Strip(Fed(FRESH, content, true).0)
  }

  // ----- the loop -----

  lemma SplitAtOpen(s: string, cursor: nat, i: nat)
    requires cursor <= i < |s| && s[i] == '<' && Without(s[cursor..i], '<') && Without(s[i + 1..|s|], '>')
    ensures Split(s[cursor..]) == OpenTag(s[cursor..i], s[i..])
  {
    hide Split, Without;
    assert s[i..][1..] == s[i + 1..|s|];
    assert s[cursor..] == s[cursor..i] + s[i..];
    SplitUnique(s[cursor..], OpenTag(s[cursor..i], s[i..]));
  }

  lemma SplitAtTag(s: string, cursor: nat, i: nat, j: nat)
    requires cursor <= i < j < |s| && s[i] == '<' && s[j] == '>' && Without(s[cursor..i], '<') && Without(s[i + 1..j], '>')
    ensures Split(s[cursor..]) == WithTag(s[cursor..i], s[i..j + 1], s[j + 1..])
  {
    hide Split, Without;
    InsideOfSlice(s, i, j);
    assert s[cursor..] == s[cursor..i] + s[i..j + 1] + s[j + 1..];
    SplitUnique(s[cursor..], WithTag(s[cursor..i], s[i..j + 1], s[j + 1..]));
  }

  /** How the two searches from the cursor cut what is left. */
  lemma SplitAtCursor(s: string, cursor: nat)
    requires cursor <= |s|
    ensures Split(s[cursor..]) ==
      match Find(s, '<', cursor)
      case None => NoTag(s[cursor..])
      case Some(i) =>
        match Find(s, '>', i + 1)
        case None => OpenTag(s[cursor..i], s[i..])
        case Some(j) => WithTag(s[cursor..i], s[i..j + 1], s[j + 1..])
  {
    hide Find, Split, Without;
    FindsFirst(s, '<', cursor);
    var start := Find(s, '<', cursor);
    if start.None? {
      assert s[cursor..|s|] == s[cursor..];
      SplitUnique(s[cursor..], NoTag(s[cursor..]));
    } else {
      var i := start.value;
      FindsFirst(s, '>', i + 1);
      var end := Find(s, '>', i + 1);
      if end.None? {
        SplitAtOpen(s, cursor, i);
      } else {
        SplitAtTag(s, cursor, i, end.value);
      }
    }
  }

  lemma ShowNothing(visible: string)
    ensures visible + [] == visible
    ensures visible + [] + [] == visible
  {
  }

  /** What one round of the loop does to the text already visible. */
  lemma ScanStep(visible: string, s: string, depth: nat, final: bool)
    ensures var p, whole := Split(s), Resume(visible, Scan(s, depth, final));
            && (p.NoTag? ==> whole == Scanned(visible + Shown(depth, p.text), [], depth))
            && (p.OpenTag? && final ==> whole == Scanned(visible + Shown(depth, p.text) + Shown(depth, p.open), [], depth))
            && (p.OpenTag? && !final ==> whole == Scanned(visible + Shown(depth, p.text), p.open, depth))
            && (p.WithTag? ==>
                  whole == Resume(visible + Shown(depth, p.text) + ShownTag(depth, p.tag),
                                  Scan(p.rest, DepthAfter(depth, p.tag), final)))
  {
    hide Split, Shown, ShownTag, DepthAfter;
    var p := Split(s);
    if p.OpenTag? {
      Regroup(visible, Shown(depth, p.text), Shown(depth, p.open), []);
    } else if p.WithTag? {
      Regroup(visible, Shown(depth, p.text), ShownTag(depth, p.tag), Scan(p.rest, DepthAfter(depth, p.tag), final).visible);
    }
  }

  lemma ScanOfNothing(s: string, depth: nat, final: bool)
    requires s == []
    ensures Scan(s, depth, final) == Scanned([], [], depth)
  {
    SplitUnique(s, NoTag(s));
  }

  class ReasoningStreamFilter {
    var buffer: string
    var depth: nat

    function State(): (f: Filter)
      reads this
    {
      Filter(buffer, depth)
    }

    constructor ()
      ensures State() == FRESH
    {
      buffer := [];
      depth := 0;
    }

    method TakeTag(tag: string) returns (shown: string)
      modifies this`depth
      ensures shown == ShownTag(old(depth), tag) && depth == DepthAfter(old(depth), tag)
    {
      shown := [];
      if IsReasoningTag(tag) {
        if IsClosingTag(tag) {
          depth := if depth - 1 > 0 then depth - 1 else 0;
        } else {
          depth := depth + 1;
        }
      } else if depth == 0 {
        shown := tag;
      }
    }

    /** The loop over `source`; the buffer is empty when it starts. */
    method Consume(source: string, final: bool) returns (visible: string)
      requires buffer == []
      modifies this
      ensures Scanned(visible, buffer, depth) == Scan(source, old(depth), final)
    {
      hide Split, Scan, Find, IsReasoningTag, IsClosingTag;
      ghost var whole := Scan(source, depth, final);
      visible := [];
      var cursor := 0;
      assert source[0..] == source && [] + whole.visible == whole.visible;
      while cursor < |source|
        invariant cursor <= |source| && buffer == []
        invariant whole == Resume(visible, Scan(source[cursor..], depth, final))
      {
        SplitAtCursor(source, cursor);
        ScanStep(visible, source[cursor..], depth, final);
        ShowNothing(visible);
        var tagStart := Find(source, '<', cursor);
        if tagStart.None? {
          if depth == 0 {
            visible := visible + source[cursor..];
          }
          return;
        }
        if depth == 0 {
          visible := visible + source[cursor..tagStart.value];
        }
        ShowNothing(visible);
        var tagEnd := Find(source, '>', tagStart.value + 1);
        if tagEnd.None? {
          if !final {
            buffer := source[tagStart.value..];
          } else if depth == 0 {
            visible := visible + source[tagStart.value..];
          }
          return;
        }
        var shown := TakeTag(source[tagStart.value..tagEnd.value + 1]);
        visible := visible + shown;
        cursor := tagEnd.value + 1;
      }
      ScanOfNothing(source[cursor..], depth, final);
      ShowNothing(visible);
    }

    method Feed(content: string, final: bool) returns (shown: string)
      modifies this
      ensures (shown, State()) == Fed(old(State()), content, final)
    {
      var source := buffer + content;
      buffer := [];
      shown := Consume(source, final);
      if final {
        buffer := [];
        depth := 0;
      }
    }
  }

  // ----- chunking does not matter -----

  /** Text without `<` in front joins the text part. */
  lemma SplitAfterText(text: string, s: string)
    requires Without(text, '<')
    ensures Split(text + s) == Split(s).(text := text + Split(s).text)
  {
    SplitIsSplit(s);
    hide Split;
    var p := Split(s).(text := text + Split(s).text);
    assert IsSplit(text + s, p) by {
      if p.WithTag? {
        assert text + (Split(s).text + p.tag + p.rest) == p.text + p.tag + p.rest;
      }
    }
    SplitUnique(text + s, p);
  }

  lemma SplitOfTag(text: string, tag: string, rest: string)
    requires Without(text, '<') && IsTag(tag) && Without(tag[1..|tag| - 1], '>')
    ensures Split(text + tag + rest) == WithTag(text, tag, rest)
  {
    SplitUnique(text + tag + rest, WithTag(text, tag, rest));
  }

  lemma ShownAppend(depth: nat, a: string, b: string)
    ensures Shown(depth, a + b) == Shown(depth, a) + Shown(depth, b)
  {
  }

  /** Text without `<` in front of a source is shown or not, and changes nothing else. */
  lemma ScanAfterText(text: string, s: string, depth: nat, final: bool)
    requires Without(text, '<')
    ensures Scan(text + s, depth, final) == Resume(Shown(depth, text), Scan(s, depth, final))
  {
    SplitAfterText(text, s);
    ShownAppend(depth, text, Split(s).text);
    hide Split, Shown, ShownTag, DepthAfter;
    var p := Split(s);
    if p.OpenTag? {
      Regroup(Shown(depth, text), Shown(depth, p.text), Shown(depth, p.open), []);
    } else if p.WithTag? {
      Regroup(Shown(depth, text), Shown(depth, p.text), ShownTag(depth, p.tag), Scan(p.rest, DepthAfter(depth, p.tag), final).visible);
    }
  }

  lemma ScanOfTag(text: string, tag: string, rest: string, depth: nat, final: bool)
    requires Without(text, '<') && IsTag(tag) && Without(tag[1..|tag| - 1], '>')
    ensures Scan(text + tag + rest, depth, final)
         == Resume(Shown(depth, text) + ShownTag(depth, tag), Scan(rest, DepthAfter(depth, tag), final))
  {
    SplitOfTag(text, tag, rest);
  }

  /** Scanning a first part without the final flag, and then its buffer with the second part, is scanning both at once. */
  lemma {:induction false} ScanInChunks(a: string, b: string, depth: nat, final: bool)
    ensures var first := Scan(a, depth, false);
            Scan(a + b, depth, final) == Resume(first.visible, Scan(first.buffer + b, first.depth, final))
    decreases |a|
  {
    SplitIsSplit(a);
    hide Split, IsReasoningTag, IsTag, Without;
    var p := Split(a);
    match p
    case NoTag(text) =>
      ScanAfterText(text, b, depth, final);
      assert [] + b == b;
    case OpenTag(text, open) =>
      assert a + b == text + (open + b);
      ScanAfterText(text, open + b, depth, final);
    case WithTag(text, tag, rest) =>
      var d := DepthAfter(depth, tag);
      assert a + b == text + tag + (rest + b);
      ScanOfTag(text, tag, rest + b, depth, final);
      ScanInChunks(rest, b, d, final);
      var first := Scan(rest, d, false);
      var second := Scan(first.buffer + b, first.depth, final);
      Regroup(Shown(depth, text) + ShownTag(depth, tag), first.visible, second.visible, []);
  }

  /** For every state of the filter: feeding `a` and then `b` is feeding `a + b`. */
  lemma FeedInChunks(f: Filter, a: string, b: string, final: bool)
    ensures var (v1, f1) := Fed(f, a, false); var (v2, f2) := Fed(f1, b, final);
            Fed(f, a + b, final) == (v1 + v2, f2)
  {
    ScanInChunks(f.buffer + a, b, f.depth, final);
    assert f.buffer + (a + b) == (f.buffer + a) + b;
  }

  /** A stream of chunks, none of them the last. */
  function FeedAll(f: Filter, chunks: seq<string>): (r: (string, Filter)) {
    if chunks == [] then ([], f)
    else
      var (v, f1) := FeedAll(f, chunks[..|chunks| - 1]);
      var (w, f2) := Fed(f1, chunks[|chunks| - 1], false);
      (v + w, f2)
  }

  /** However a text is cut into chunks, what is shown in all is what is shown of the text in one piece. */
  lemma {:induction false} AnyChunking(f: Filter, chunks: seq<string>, last: string, final: bool)
    ensures var (v, f1) := FeedAll(f, chunks); var (w, f2) := Fed(f1, last, final);
            Fed(f, Join(chunks) + last, final) == (v + w, f2)
    decreases |chunks|
  {
    hide Fed;
    if chunks == [] {
      assert [] + last == last;
      assert [] + Fed(f, last, final).0 == Fed(f, last, final).0;
    } else {
      var init, chunk := chunks[..|chunks| - 1], chunks[|chunks| - 1];
      var (v, f1) := FeedAll(f, init);
      var (w, f2) := Fed(f1, chunk, false);
      var (x, f3) := Fed(f2, last, final);
      FeedInChunks(f1, chunk, last, final);
      AnyChunking(f, init, chunk + last, final);
      assert Join(chunks) + last == Join(init) + (chunk + last);
      assert v + (w + x) == (v + w) + x;
    }
  }

  // ----- what is shown, token by token -----

  /** Text without `<`, complete tags, and possibly an unfinished tag at the end. */
  function Tokens(s: string): (tokens: seq<string>)
    decreases |s|
  {
    match Split(s)
    case NoTag(text) => [text]
    case OpenTag(text, open) => [text, open]
    case WithTag(text, tag, rest) => [text, tag] + Tokens(rest)
  }

  lemma {:induction false} TokensAreTheText(s: string)
    ensures Join(Tokens(s)) == s
    decreases |s|
  {
    SplitIsSplit(s);
    hide Split, IsTag, Without;
    match Split(s)
    case NoTag(text) =>
    case OpenTag(text, open) =>
      JoinCons(text, [open]);
      JoinCons(open, []);
      assert [text] + [open] == [text, open] && [open] + [] == [open];
      assert open + [] == open;
    case WithTag(text, tag, rest) =>
      TokensAreTheText(rest);
      JoinCons(tag, Tokens(rest));
      JoinCons(text, [tag] + Tokens(rest));
      assert [text] + ([tag] + Tokens(rest)) == [text, tag] + Tokens(rest);
      assert text + (tag + rest) == text + tag + rest;
  }

  function Delta(token: string): (d: int) {
    if !IsReasoningTag(token) then 0 else if IsClosingTag(token) then -1 else 1
  }

  /** Opening minus closing tags, on top of the depth at the start. */
  function Balance(depth: nat, tokens: seq<string>): (b: int) {
    if tokens == [] then depth else Balance(depth, tokens[..|tokens| - 1]) + Delta(tokens[|tokens| - 1])
  }

  /** The least balance so far, or zero. */
  function Lowest(depth: nat, tokens: seq<string>): (m: int)
    ensures m <= 0 && m <= Balance(depth, tokens)
  {
    if tokens == [] then 0
    else
      var m := Lowest(depth, tokens[..|tokens| - 1]);
      if Balance(depth, tokens) < m then Balance(depth, tokens) else m
  }

  function ClosedDepth(depth: nat, tokens: seq<string>): (d: nat) {
    Balance(depth, tokens) - Lowest(depth, tokens)
  }

  /** The tokens that stand at depth zero and are no reasoning tags. */
  function Kept(depth: nat, tokens: seq<string>): (s: string) {
    if tokens == [] then []
    else
      var init, last := tokens[..|tokens| - 1], tokens[|tokens| - 1];
      Kept(depth, init) + if !IsReasoningTag(last) && ClosedDepth(depth, init) == 0 then last else []
  }

  lemma KeepNext(depth: nat, tokens: seq<string>, token: string)
    ensures ClosedDepth(depth, tokens + [token]) == DepthAfter(ClosedDepth(depth, tokens), token)
    ensures Kept(depth, tokens + [token]) == Kept(depth, tokens) + ShownTag(ClosedDepth(depth, tokens), token)
  {
    assert (tokens + [token])[..|tokens|] == tokens;
  }

  lemma TextIsNoTag(s: string)
    requires Without(s, '<') || (s != [] && Without(s[1..], '>'))
    ensures !IsReasoningTag(s)
  {
    assert |s| >= 2 ==> s[1..][|s| - 2] == s[|s| - 1];
  }

  /** A text token and the token after it. */
  lemma KeepTwo(depth: nat, done: seq<string>, text: string, token: string)
    requires !IsReasoningTag(text)
    ensures var d := ClosedDepth(depth, done);
            && Kept(depth, done + [text]) == Kept(depth, done) + Shown(d, text)
            && Kept(depth, done + [text, token]) == Kept(depth, done) + (Shown(d, text) + ShownTag(d, token))
            && ClosedDepth(depth, done + [text, token]) == DepthAfter(d, token)
  {
    var d := ClosedDepth(depth, done);
    KeepNext(depth, done, text);
    KeepNext(depth, done + [text], token);
    hide Kept, ClosedDepth, IsReasoningTag;
    assert done + [text] + [token] == done + [text, token];
    Regroup(Kept(depth, done), Shown(d, text), ShownTag(d, token), []);
  }

  /** The first tokens of a text, kept or not. */
  lemma KeepParts(depth: nat, done: seq<string>, s: string)
    ensures var d, p := ClosedDepth(depth, done), Split(s);
            && (p.NoTag? ==> Kept(depth, done + [p.text]) == Kept(depth, done) + Shown(d, p.text))
            && (p.OpenTag? ==> Kept(depth, done + [p.text, p.open]) == Kept(depth, done) + (Shown(d, p.text) + Shown(d, p.open)))
            && (p.WithTag? ==>
                  && Kept(depth, done + [p.text, p.tag]) == Kept(depth, done) + (Shown(d, p.text) + ShownTag(d, p.tag))
                  && ClosedDepth(depth, done + [p.text, p.tag]) == DepthAfter(d, p.tag))
  {
    SplitIsSplit(s);
    var p := Split(s);
    TextIsNoTag(p.text);
    if p.OpenTag? {
      TextIsNoTag(p.open);
    }
    hide Split, Kept, ClosedDepth, Shown, DepthAfter, IsReasoningTag, IsTag, Without;
    KeepTwo(depth, done, p.text, if p.OpenTag? then p.open else if p.WithTag? then p.tag else []);
  }

  /** The final scan keeps exactly the tokens at depth zero, the saturating depth being the closed form. */
  lemma {:induction false} ScanKeepsTokens(depth: nat, done: seq<string>, s: string)
    ensures Kept(depth, done + Tokens(s)) == Kept(depth, done) + Scan(s, ClosedDepth(depth, done), true).visible
    decreases |s|
  {
    KeepParts(depth, done, s);
    hide Split, Kept, ClosedDepth, Shown, ShownTag, DepthAfter;
    var d, p := ClosedDepth(depth, done), Split(s);
    if p.WithTag? {
      ScanKeepsTokens(depth, done + [p.text, p.tag], p.rest);
      assert done + [p.text, p.tag] + Tokens(p.rest) == done + Tokens(s);
      Regroup(Kept(depth, done), Shown(d, p.text) + ShownTag(d, p.tag), Scan(p.rest, DepthAfter(d, p.tag), true).visible, []);
    }
  }

  /** What a filter in any state shows when fed its last chunk. */
  lemma FinalFeedKeepsTokens(f: Filter, content: string)
    ensures Fed(f, content, true).0 == Kept(f.depth, Tokens(f.buffer + content))
  {
    ScanKeepsTokens(f.depth, [], f.buffer + content);
    assert [] + Tokens(f.buffer + content) == Tokens(f.buffer + content);
  }

  // ----- nothing else is touched -----

  /** No token of the text is a reasoning tag. */
  predicate Clean(s: string) {
    forall t :: t in Tokens(s) ==> !IsReasoningTag(t)
  }

  lemma CleanUnfold(s: string)
    ensures Clean(s) <==> match Split(s)
                          case WithTag(_, tag, rest) => !IsReasoningTag(tag) && Clean(rest)
                          case _ => true
  {
    SplitIsSplit(s);
    var p := Split(s);
    TextIsNoTag(p.text);
    hide Split, IsReasoningTag;
    match p
    case NoTag(_) =>
    case OpenTag(_, open) => TextIsNoTag(open);
    case WithTag(text, tag, rest) =>
      assert Tokens(s) == [text, tag] + Tokens(rest);
      assert forall t :: t in Tokens(s) <==> t == text || t == tag || t in Tokens(rest);
  }

  lemma CleanAfterText(text: string, s: string)
    requires Without(text, '<')
    ensures Clean(text + s) <==> Clean(s)
  {
    SplitAfterText(text, s);
    hide Split, Clean;
    CleanUnfold(s);
    CleanUnfold(text + s);
  }

  lemma CleanAfterTag(tag: string, rest: string)
    requires IsTag(tag) && Without(tag[1..|tag| - 1], '>') && !IsReasoningTag(tag)
    ensures Clean(tag + rest) <==> Clean(rest)
  {
    SplitOfTag([], tag, rest);
    assert [] + tag + rest == tag + rest;
    hide Split, Clean;
    CleanUnfold(tag + rest);
  }

  lemma {:induction false} PrefixOfCleanIsClean(a: string, b: string)
    requires Clean(a + b)
    ensures Clean(a)
    decreases |a|
  {
    SplitIsSplit(a);
    CleanUnfold(a);
    hide Split, Clean, IsTag, Without;
    match Split(a)
    case NoTag(_) =>
    case OpenTag(_, _) =>
    case WithTag(text, tag, rest) =>
      assert a + b == text + tag + (rest + b);
      SplitOfTag(text, tag, rest + b);
      CleanUnfold(a + b);
      PrefixOfCleanIsClean(rest, b);
  }

  lemma CleanAfterParts(text: string, tag: string, rest: string)
    requires Without(text, '<') && IsTag(tag) && Without(tag[1..|tag| - 1], '>') && Clean(rest)
    ensures Clean(text + ShownTag(0, tag) + rest)
  {
    var tail := ShownTag(0, tag) + rest;
    if IsReasoningTag(tag) {
      assert tail == rest;
    } else {
      CleanAfterTag(tag, rest);
    }
    CleanAfterText(text, tail);
    Regroup(text, ShownTag(0, tag), rest, []);
  }

  lemma CleanWhole(s: string)
    requires !Split(s).WithTag?
    ensures Clean([]) && Clean(s)
  {
    CleanUnfold(s);
    SplitUnique([], NoTag([]));
    CleanUnfold([]);
  }

  /** What the filter has shown holds no reasoning tag any more. */
  lemma {:induction false} VisibleIsClean(s: string, depth: nat)
    ensures Clean(Scan(s, depth, true).visible)
    decreases |s|
  {
    SplitIsSplit(s);
    var p := Split(s);
    hide Split, Clean, IsReasoningTag;
    if p.WithTag? {
      var tail := Scan(p.rest, DepthAfter(depth, p.tag), true).visible;
      VisibleIsClean(p.rest, DepthAfter(depth, p.tag));
      if depth == 0 {
        CleanAfterParts(p.text, p.tag, tail);
      } else {
        assert [] + [] + tail == tail;
      }
    } else {
      CleanWhole(s);
      assert Scan(s, depth, true).visible == if depth == 0 then s else [];
    }
  }

  lemma {:induction false} CleanScansUnchanged(s: string)
    requires Clean(s)
    ensures Scan(s, 0, true).visible == s
    decreases |s|
  {
    SplitIsSplit(s);
    CleanUnfold(s);
    hide Split, Clean, IsTag, Without, IsReasoningTag;
    match Split(s)
    case NoTag(_) =>
    case OpenTag(_, _) =>
    case WithTag(_, _, rest) => CleanScansUnchanged(rest);
  }

  /** A fresh filter shows a whole text unchanged exactly when no token of it is a reasoning tag. */
  lemma UnchangedIffClean(s: string)
    ensures Fed(FRESH, s, true).0 == s <==> Clean(s)
  {
    assert [] + s == s;
    VisibleIsClean(s, 0);
    if Clean(s) {
      CleanScansUnchanged(s);
    }
  }

  /** Stripping a text a second time changes nothing. */
  lemma StripReasoningTwice(s: string)
    ensures StripReasoningContent(StripReasoningContent(s)) == StripReasoningContent(s)
  {
    var visible := Fed(FRESH, s, true).0;
    VisibleIsClean([] + s, 0);
    hide Clean, Fed, Scan, Split;
    var k := LstripIsSuffix(visible);
    var left := Lstrip(visible);
    assert visible == visible[..k] + left;
    CleanAfterText(visible[..k], left);
    var t := Strip(visible);
    assert left == t + left[|t|..];
    PrefixOfCleanIsClean(t, left[|t|..]);
    UnchangedIffClean(t);
    StripTwice(visible);
  }
}
