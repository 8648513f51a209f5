/**
 The compact JSON text that `serde_json::to_vec` writes for an object whose values are
 strings or null, and a reader that follows RFC 8259 without knowing the writer.
 */
module CanonicalJson {
  import opened Options
  import opened Numerals

  /** One character of a string literal, escaped as the serializer escapes it. */
  function EscapeChar(c: char): (s: string)
  {
    if c == '"' then "\\\""
    else if c == '\\' then "\\\\"
    else if c as int == 8 then "\\b"
    else if c as int == 9 then "\\t"
    else if c as int == 10 then "\\n"
    else if c as int == 12 then "\\f"
    else if c as int == 13 then "\\r"
    else if c < ' ' then "\\u" + Hex(c as int, 4)
    else [c]
  }

  function Escape(s: string): (e: string)
  {
    if s == [] then [] else EscapeChar(s[0]) + Escape(s[1..])
  }

  function EncodeValue(v: Option<string>): (s: string)
  {
    match v
    case None => "null"
    case Some(text) => "\"" + Escape(text) + "\""
  }

  function EncodeMember(key: string, v: Option<string>): (s: string)
  {
    "\"" + Escape(key) + "\":" + EncodeValue(v)
  }

  function Separator(membersLeft: nat): (s: string) {
    if membersLeft == 1 then "" else ","
  }

  function EncodeMembers(keys: seq<string>, values: seq<Option<string>>): (s: string)
    requires |keys| == |values|
  {
    if keys == [] then []
    else
      EncodeMember(keys[0], values[0]) + (Separator(|keys|) + EncodeMembers(keys[1..], values[1..]))
  }

  function EncodeObject(keys: seq<string>, values: seq<Option<string>>): (s: string)
    requires |keys| == |values|
  {
    "{" + EncodeMembers(keys, values) + "}"
  }

  /** What follows a backslash: the character it stands for, and the rest (section 7 of RFC 8259). */
  function ReadEscape(s: string): (r: Option<(char, string)>)
    ensures r.Some? ==> |r.value.1| < |s|
  {
    if s == [] then None
    else if s[0] == '"' || s[0] == '\\' || s[0] == '/' then Some((s[0], s[1..]))
    else if s[0] == 'b' then Some((8 as char, s[1..]))
    else if s[0] == 'f' then Some((12 as char, s[1..]))
    else if s[0] == 'n' then Some((10 as char, s[1..]))
    else if s[0] == 'r' then Some((13 as char, s[1..]))
    else if s[0] == 't' then Some((9 as char, s[1..]))
    else if s[0] == 'u' && |s| >= 5 && (forall i :: 1 <= i < 5 ==> DigitValue(s[i]) < 16) then
      // surrogate halves are not scalar values; the serializer never escapes a character above U+001F
      var v := Value(s[1..5], 16);
      if v < 0xD800 || 0xE000 <= v < 0x10000 then Some((v as char, s[5..])) else None
    else None
  }

  /** A string literal after its opening quote: its text, and what follows its closing quote. */
  function ReadString(s: string): (r: Option<(string, string)>)
    ensures r.Some? ==> |r.value.1| < |s|
    decreases |s|
  {
    if s == [] then None
    else if s[0] == '"' then Some(([], s[1..]))
    else if s[0] == '\\' then
      match ReadEscape(s[1..])
      case None => None
      case Some((c, rest)) =>
        match ReadString(rest)
        case None => None
        case Some((text, after)) => Some(([c] + text, after))
    else if s[0] < ' ' then None
    else
      match ReadString(s[1..])
      case None => None
      case Some((text, after)) => Some(([s[0]] + text, after))
  }

  function Expect(token: string, s: string): (r: Option<string>)
    ensures r == None || s == token + r.value
  {
    if token <= s then Some(s[|token|..]) else None
  }

  function ReadValue(s: string): (r: Option<(Option<string>, string)>)
  {
    if s != [] && s[0] == '"' then
      match ReadString(s[1..])
      case None => None
      case Some((text, rest)) => Some((Some(text), rest))
    else
      match Expect("null", s)
      case None => None
      case Some(rest) => Some((None, rest))
  }

  /** One member `"key":value`. */
  function ReadMember(s: string): (r: Option<(string, Option<string>, string)>)
  {
    if s == [] || s[0] != '"' then None
    else
      match ReadString(s[1..])
      case None => None
      case Some((key, s1)) =>
        match Expect(":", s1)
        case None => None
        case Some(s2) =>
          match ReadValue(s2)
          case None => None
          case Some((v, rest)) => Some((key, v, rest))
  }

  /** `n` members separated by commas: their keys, their values, and the rest. */
  function ReadMembers(n: nat, s: string): (r: Option<(seq<string>, seq<Option<string>>, string)>)
  {
    if n == 0 then Some(([], [], s))
    else
      match ReadMember(s)
      case None => None
      case Some((key, v, s1)) =>
        match Expect(Separator(n), s1)
        case None => None
        case Some(s2) =>
          match ReadMembers(n - 1, s2)
          case None => None
          case Some((keys, values, rest)) => Some(([key] + keys, [v] + values, rest))
  }

  function ReadObject(n: nat, s: string): (r: Option<(seq<string>, seq<Option<string>>, string)>)
  {
    match Expect("{", s)
    case None => None
    case Some(s1) =>
      match ReadMembers(n, s1)
      case None => None
      case Some((keys, values, s2)) =>
        match Expect("}", s2)
        case None => None
        case Some(rest) => Some((keys, values, rest))
  }

  lemma ReadEscapedChar(c: char, rest: string)
    ensures var s := EscapeChar(c) + rest;
            if s[0] == '\\' then ReadEscape(s[1..]) == Some((c, rest))
            else s[0] == c && s[1..] == rest && c != '"' && c >= ' '
  {
    var e := EscapeChar(c);
    if |e| == 6 {
      ReadHexEscape(c, rest);
    } else if |e| == 2 {
      assert (e + rest)[1..] == [e[1]] + rest;
      assert ([e[1]] + rest)[1..] == rest;
    } else {
      assert (e + rest)[1..] == rest;
    }
  }

  lemma ReadHexEscape(c: char, rest: string)
    requires c < ' '
    ensures ReadEscape(("\\u" + Hex(c as int, 4) + rest)[1..]) == Some((c, rest))
  {
    var n := c as int;
    var h := Hex(n, 4);
    assert Pow16(4) == 65536 by {
      assert Pow16(2) == 256;
    }
    HexDenotes(n, 4);
    HexIsHex(n, 4);
    var s := ['u'] + h + rest;
    assert ("\\u" + h + rest)[1..] == s;
    assert forall i :: 1 <= i < 5 ==> s[i] == h[i - 1];
    assert s[1..5] == h && s[5..] == rest;
  }

  lemma {:induction false} HexIsHex(n: nat, width: nat)
    ensures forall i :: 0 <= i < width ==> DigitValue(Hex(n, width)[i]) < 16
  {
    if width > 0 {
      HexIsHex(n / 16, width - 1);
      DigitHasItsValue(n % 16);
    }
  }

  /** How a literal of one character starts. */
  lemma {:induction false} ReadHead(s: string, c: char)
    requires ReadString(s) == Some(([c], []))
    ensures s != [] && s[0] != '"'
    ensures s[0] == '\\' ==> var r := ReadEscape(s[1..]); r.Some? && r.value.0 == c && r.value.1 != []
    ensures s[0] != '\\' ==> s[0] == c && c >= ' '
  {
    hide ReadEscape;
    if s[0] == '\\' {
      var (x, rest) := ReadEscape(s[1..]).value;
      assert [x] + ReadString(rest).value.0 == [c];
      assert ([x] + ReadString(rest).value.0)[0] == x;
    } else {
      assert [s[0]] + ReadString(s[1..]).value.0 == [c];
      assert ([s[0]] + ReadString(s[1..]).value.0)[0] == s[0];
    }
  }

  /** No literal of the character is shorter than the one written. */
  lemma {:induction false} EscapedIsShortest(c: char, e: string)
    requires ReadString(e + "\"") == Some(([c], []))
    ensures |EscapeChar(c)| <= |e|
  {
    hide ReadString, EscapeChar, ReadEscape;
    var s := e + "\"";
    ReadHead(s, c);
    if e != [] {
      assert s[0] == e[0] && s[1..] == e[1..] + "\"";
      if e[0] == '\\' {
        EscapeIsLong(e[1..]);
      } else {
        PlainCharacter(c);
      }
    }
  }

  lemma PlainCharacter(c: char)
    ensures c >= ' ' && c != '"' && c != '\\' ==> |EscapeChar(c)| == 1
  {
  }

  /** What an escape takes: a short one stands for one of eight characters, any other has five characters behind the backslash. */
  lemma EscapeIsLong(e: string)
    requires var r := ReadEscape(e + "\""); r.Some? && r.value.1 != []
    ensures var c := ReadEscape(e + "\"").value.0; e != [] && |EscapeChar(c)| <= if |e| < 5 then 2 else 6
  {
    var s := e + "\"";
    if 0 < |e| < 5 {
      assert s[0] == e[0] && s[|e|] == '"';
      assert DigitValue('"') == 16;
    }
  }

  /** And the digits of a hexadecimal escape are written in lower case. */
  lemma EscapedInLowerCase(c: char, i: nat)
    requires i < |EscapeChar(c)| && EscapeChar(c) != [c]
    ensures !('A' <= EscapeChar(c)[i] <= 'Z')
  {
    if |EscapeChar(c)| == 6 {
      var h := Hex(c as int, 4);
      HexInLowerCase(c as int, 4);
      assert EscapeChar(c) == "\\u" + h;
    }
  }

  lemma {:induction false} HexInLowerCase(n: nat, width: nat)
    ensures forall i :: 0 <= i < width ==> !('A' <= Hex(n, width)[i] <= 'Z')
  {
    if width > 0 {
      HexInLowerCase(n / 16, width - 1);
    }
  }

  /** Reading undoes writing, and stops exactly where the literal ends. */
  lemma {:induction false} ReadEscapedString(text: string, rest: string)
    ensures ReadString(Escape(text) + "\"" + rest) == Some((text, rest))
  {
    if text == [] {
      assert Escape(text) + "\"" + rest == "\"" + rest;
    } else {
      var c, tail := text[0], Escape(text[1..]) + "\"" + rest;
      assert Escape(text) + "\"" + rest == EscapeChar(c) + tail;
      ReadEscapedChar(c, tail);
      ReadEscapedString(text[1..], rest);
      assert [c] + text[1..] == text;
    }
  }

  lemma ReadEncodedValue(v: Option<string>, rest: string)
    ensures ReadValue(EncodeValue(v) + rest) == Some((v, rest))
  {
    hide ReadString, Escape;
    var s := EncodeValue(v) + rest;
    if v.None? {
      assert s[|"null"|..] == rest;
    } else {
      assert s[1..] == Escape(v.value) + "\"" + rest;
      ReadEscapedString(v.value, rest);
    }
  }

  lemma ExpectFinds(token: string, rest: string)
    ensures Expect(token, token + rest) == Some(rest)
  {
    assert (token + rest)[|token|..] == rest;
  }

  lemma ReadEncodedMember(key: string, v: Option<string>, rest: string)
    ensures ReadMember(EncodeMember(key, v) + rest) == Some((key, v, rest))
  {
    var name, value := Escape(key), EncodeValue(v);
    ReadEscapedString(key, ":" + (value + rest));
    ReadEncodedValue(v, rest);
    ReadMemberParts(name, value, key, v, rest);
  }

  lemma ReadMemberParts(name: string, value: string, key: string, v: Option<string>, rest: string)
    requires ReadString(name + "\"" + (":" + (value + rest))) == Some((key, ":" + (value + rest)))
    requires ReadValue(value + rest) == Some((v, rest))
    ensures ReadMember("\"" + name + "\":" + value + rest) == Some((key, v, rest))
  {
    var s := "\"" + name + "\":" + value + rest;
    assert s[1..] == name + "\"" + (":" + (value + rest));
    ExpectFinds(":", value + rest);
  }

  lemma {:induction false} ReadEncodedMembers(keys: seq<string>, values: seq<Option<string>>, rest: string)
    requires |keys| == |values|
    ensures ReadMembers(|keys|, EncodeMembers(keys, values) + rest) == Some((keys, values, rest))
  {
    hide ReadMember, EncodeMember, Expect, Separator;
    if keys == [] {
      assert EncodeMembers(keys, values) + rest == rest;
    } else {
      hide ReadMembers, EncodeMembers;
      var more := EncodeMembers(keys[1..], values[1..]) + rest;
      ReadEncodedMembers(keys[1..], values[1..], rest);
      ReadEncodedMember(keys[0], values[0], Separator(|keys|) + more);
      ExpectFinds(Separator(|keys|), more);
      ReadMembersStep(|keys|, EncodeMember(keys[0], values[0]) + (Separator(|keys|) + more),
                      keys[0], values[0], more, keys[1..], values[1..], rest);
      EncodeMembersStep(keys, values, rest);
      assert [keys[0]] + keys[1..] == keys && [values[0]] + values[1..] == values;
    }
  }

  lemma ReadMembersStep(n: nat, s: string, key: string, v: Option<string>, more: string,
                        keys: seq<string>, values: seq<Option<string>>, rest: string)
    requires n > 0
    requires ReadMember(s) == Some((key, v, Separator(n) + more))
    requires Expect(Separator(n), Separator(n) + more) == Some(more)
    requires ReadMembers(n - 1, more) == Some((keys, values, rest))
    ensures ReadMembers(n, s) == Some(([key] + keys, [v] + values, rest))
  {
  }

  lemma EncodeMembersStep(keys: seq<string>, values: seq<Option<string>>, rest: string)
    requires |keys| == |values| > 0
    ensures EncodeMembers(keys, values) + rest
         == EncodeMember(keys[0], values[0]) + (Separator(|keys|) + (EncodeMembers(keys[1..], values[1..]) + rest))
  {
    var first, more := EncodeMember(keys[0], values[0]), EncodeMembers(keys[1..], values[1..]);
    assert EncodeMembers(keys, values) == first + (Separator(|keys|) + more);
    Regroup(first, Separator(|keys|), more, rest);
  }

  lemma Regroup(a: string, b: string, c: string, d: string)
    ensures a + (b + c) + d == a + (b + (c + d))
  {
  }

  /** The round trip: whatever follows the object, its members come back and so does the rest. */
  lemma ReadEncodedObject(keys: seq<string>, values: seq<Option<string>>, rest: string)
    requires |keys| == |values|
    ensures ReadObject(|keys|, EncodeObject(keys, values) + rest) == Some((keys, values, rest))
  {
    hide ReadMembers, EncodeMembers, Expect;
    var members := EncodeMembers(keys, values);
    assert EncodeObject(keys, values) + rest == "{" + (members + ("}" + rest));
    ExpectFinds("{", members + ("}" + rest));
    ReadEncodedMembers(keys, values, "}" + rest);
    ExpectFinds("}", rest);
  }

  /** No object text is a proper prefix of another with as many members, so a suffix can be appended unambiguously. */
  lemma EncodeObjectIsPrefixFree(keys: seq<string>, v1: seq<Option<string>>, rest1: string,
                                 v2: seq<Option<string>>, rest2: string)
    requires |keys| == |v1| == |v2|
    requires EncodeObject(keys, v1) + rest1 == EncodeObject(keys, v2) + rest2
    ensures v1 == v2 && rest1 == rest2
  {
    ReadEncodedObject(keys, v1, rest1);
    ReadEncodedObject(keys, v2, rest2);
  }
}
