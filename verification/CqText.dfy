/** CQ escaping as chains of string replacements. */
module CqText {

  /** `str::replace`: leftmost matches, none overlapping. */
  function Replace(s: string, pattern: string, with: string): string
    requires pattern != []
  {
    if s == [] then []
    else if pattern <= s then with + Replace(s[|pattern|..], pattern, with)
    else [s[0]] + Replace(s[1..], pattern, with)
  }

  function EscapeParameter(value: string): string {
    Replace(Replace(Replace(Replace(value, "&", "&amp;"), "[", "&#91;"), "]", "&#93;"), ",", "&#44;")
  }

  /** What a sender writes for text between codes, where a comma delimits nothing. */
  function EscapeText(value: string): string {
    Replace(Replace(Replace(value, "&", "&amp;"), "[", "&#91;"), "]", "&#93;")
  }

  function Unescape(value: string, parameter: bool): string {
    var value := if parameter then Replace(value, "&#44;", ",") else value;
    Replace(Replace(Replace(value, "&#91;", "["), "&#93;", "]"), "&amp;", "&")
  }

  // ---- what the chains mean, character by character ----

  /** The four special characters; everything else has index 4. */
  function Index(c: char): nat {
    if c == '&' then 0 else if c == '[' then 1 else if c == ']' then 2 else if c == ',' then 3 else 4
  }

  function Special(i: nat): char
    requires i < 4
  {
    "&[],"[i]
  }

  function Code(i: nat): (code: string)
    requires i < 4
    ensures |code| == 5 && code[0] == '&'
    ensures forall k :: 1 <= k < 5 ==> code[k] != '&' && code[k] != '[' && code[k] != ']' && code[k] != ','
  {
    if i == 0 then "&amp;" else if i == 1 then "&#91;" else if i == 2 then "&#93;" else "&#44;"
  }

  function Token(escaped: set<nat>, c: char): string {
    if Index(c) in escaped && Index(c) < 4 then Code(Index(c)) else [c]
  }

  /** `s` with the characters of `escaped` in coded form. */
  function Encoded(escaped: set<nat>, s: string): string {
    if s == [] then [] else Token(escaped, s[0]) + Encoded(escaped, s[1..])
  }

  /** Nothing can match inside a stretch without the pattern's first character. */
  lemma {:induction false} ReplaceSkips(t: string, rest: string, pattern: string, with: string)
    requires pattern != [] && pattern[0] !in t
    ensures Replace(t + rest, pattern, with) == t + Replace(rest, pattern, with)
  {
    if t == [] {
      assert t + rest == rest;
    } else {
      var s := t + rest;
      assert s[0] == t[0] && t[0] in t;
      assert s[1..] == t[1..] + rest;
      ReplaceSkips(t[1..], rest, pattern, with);
    }
  }

  lemma ReplaceMatches(rest: string, pattern: string, with: string)
    requires pattern != []
    ensures Replace(pattern + rest, pattern, with) == with + Replace(rest, pattern, with)
  {
    assert (pattern + rest)[|pattern|..] == rest;
  }

  /** One escaping step on one character. */
  lemma TokenEscapes(escaped: set<nat>, i: nat, c: char, rest: string)
    requires i < 4 && i !in escaped && (i == 0 ==> escaped == {})
    ensures Replace(Token(escaped, c) + rest, [Special(i)], Code(i))
         == Token(escaped + {i}, c) + Replace(rest, [Special(i)], Code(i))
  {
    if c == Special(i) {
      ReplaceMatches(rest, [Special(i)], Code(i));
    } else {
      ReplaceSkips(Token(escaped, c), rest, [Special(i)], Code(i));
    }
  }

  /** One escaping step codes one more character. */
  lemma {:induction false} EscapeStep(escaped: set<nat>, i: nat, s: string)
    requires i < 4 && i !in escaped && (i == 0 ==> escaped == {})
    ensures Replace(Encoded(escaped, s), [Special(i)], Code(i)) == Encoded(escaped + {i}, s)
  {
    if s != [] {
      EscapeStep(escaped, i, s[1..]);
      TokenEscapes(escaped, i, s[0], Encoded(escaped, s[1..]));
    }
  }

  lemma CodesDiffer(i: nat, j: nat, rest: string)
    requires i < 4 && j < 4 && i != j
    ensures !(Code(i) <= Code(j) + rest)
  {
    var s := Code(j) + rest;
    assert s[2] == Code(j)[2] && s[3] == Code(j)[3];
    assert Code(i)[2] != Code(j)[2] || Code(i)[3] != Code(j)[3];
  }

  /** One unescaping step on one character, as long as every literal ampersand is coded. */
  lemma TokenUnescapes(escaped: set<nat>, i: nat, c: char, rest: string)
    requires i < 4 && i in escaped && 0 in escaped && (i == 0 ==> escaped == {0})
    ensures Replace(Token(escaped, c) + rest, Code(i), [Special(i)])
         == Token(escaped - {i}, c) + Replace(rest, Code(i), [Special(i)])
  {
    if c == Special(i) {
      ReplaceMatches(rest, Code(i), [Special(i)]);
    } else if Index(c) in escaped && Index(c) < 4 {
      CodeIsSkipped(i, Index(c), rest);
    } else {
      ReplaceSkips([c], rest, Code(i), [Special(i)]);
    }
  }

  lemma CodeIsSkipped(i: nat, j: nat, rest: string)
    requires i < 4 && j < 4 && i != j
    ensures Replace(Code(j) + rest, Code(i), [Special(i)]) == Code(j) + Replace(rest, Code(i), [Special(i)])
  {
    var code := Code(j);
    CodesDiffer(i, j, rest);
    ReplaceSkips(code[1..], rest, Code(i), [Special(i)]);
    assert (code + rest)[1..] == code[1..] + rest;
    assert code == [code[0]] + code[1..];
  }

  /** One unescaping step decodes one character. */
  lemma {:induction false} UnescapeStep(escaped: set<nat>, i: nat, s: string)
    requires i < 4 && i in escaped && 0 in escaped && (i == 0 ==> escaped == {0})
    ensures Replace(Encoded(escaped, s), Code(i), [Special(i)]) == Encoded(escaped - {i}, s)
  {
    if s != [] {
      UnescapeStep(escaped, i, s[1..]);
      TokenUnescapes(escaped, i, s[0], Encoded(escaped, s[1..]));
    }
  }

  lemma {:induction false} NothingEncoded(s: string)
    ensures Encoded({}, s) == s
  {
    if s != [] {
      NothingEncoded(s[1..]);
    }
  }

  /** Escaping codes exactly the four special characters. */
  lemma EscapeIsEncoded(s: string)
    ensures EscapeParameter(s) == Encoded({0, 1, 2, 3}, s)
  {
    NothingEncoded(s);
    EscapeStep({}, 0, s);
    assert {} + {0} == {0};
    EscapeStep({0}, 1, s);
    assert {0} + {1} == {0, 1};
    EscapeStep({0, 1}, 2, s);
    assert {0, 1} + {2} == {0, 1, 2};
    EscapeStep({0, 1, 2}, 3, s);
    assert {0, 1, 2} + {3} == {0, 1, 2, 3};
  }

  /** Escaping text codes exactly the three that are special there. */
  lemma EscapeTextIsEncoded(s: string)
    ensures EscapeText(s) == Encoded({0, 1, 2}, s)
  {
    NothingEncoded(s);
    EscapeStep({}, 0, s);
    assert {} + {0} == {0};
    EscapeStep({0}, 1, s);
    assert {0} + {1} == {0, 1};
    EscapeStep({0, 1}, 2, s);
    assert {0, 1} + {2} == {0, 1, 2};
  }

  /** Unescaping a parameter undoes escaping it, for every string. */
  lemma UnescapeOfEscape(s: string)
    ensures Unescape(EscapeParameter(s), true) == s
  {
    EscapeIsEncoded(s);
    UnescapeStep({0, 1, 2, 3}, 3, s);
    assert {0, 1, 2, 3} - {3} == {0, 1, 2};
    TextCodesUnescape(s);
  }

  /** Unescaping the text between codes undoes escaping it, for every string. */
  lemma UnescapeOfEscapedText(s: string)
    ensures Unescape(EscapeText(s), false) == s
  {
    EscapeTextIsEncoded(s);
    TextCodesUnescape(s);
  }

  lemma TextCodesUnescape(s: string)
    ensures Replace(Replace(Replace(Encoded({0, 1, 2}, s), "&#91;", "["), "&#93;", "]"), "&amp;", "&") == s
  {
    UnescapeStep({0, 1, 2}, 1, s);
    assert {0, 1, 2} - {1} == {0, 2};
    UnescapeStep({0, 2}, 2, s);
    assert {0, 2} - {2} == {0};
    UnescapeStep({0}, 0, s);
    assert {0} - {0} == {};
    NothingEncoded(s);
  }

  /** An escaped value has none of the characters that delimit it. */
  lemma {:induction false} EscapedIsDelimiterFree(s: string)
    ensures var e := EscapeParameter(s); '[' !in e && ']' !in e && ',' !in e
  {
    EscapeIsEncoded(s);
    EncodedIsDelimiterFree(s);
  }

  /** Escaped text has no bracket, and so no code in it. */
  lemma EscapedTextHasNoBracket(s: string)
    ensures var e := EscapeText(s); '[' !in e && ']' !in e
    ensures EscapeText(s) == [] <==> s == []
  {
    EscapeTextIsEncoded(s);
    EncodedTextHasNoBracket(s);
  }

  lemma {:induction false} EncodedTextHasNoBracket(s: string)
    ensures var e := Encoded({0, 1, 2}, s); '[' !in e && ']' !in e
  {
    if s != [] {
      EncodedTextHasNoBracket(s[1..]);
    }
  }

  lemma {:induction false} EncodedIsDelimiterFree(s: string)
    ensures var e := Encoded({0, 1, 2, 3}, s); '[' !in e && ']' !in e && ',' !in e
  {
    if s != [] {
      EncodedIsDelimiterFree(s[1..]);
    }
  }

  // ---- when unescaping changes nothing ----

  predicate Occurs(pattern: string, s: string) {
    exists i :: 0 <= i <= |s| && pattern <= s[i..]
  }

  /** A replacement by something shorter shortens the string exactly when the pattern occurs. */
  lemma {:induction false} ReplaceShortens(s: string, pattern: string, with: string)
    requires |with| < |pattern|
    ensures |Replace(s, pattern, with)| <= |s|
    ensures Occurs(pattern, s) ==> |Replace(s, pattern, with)| < |s|
    ensures !Occurs(pattern, s) ==> Replace(s, pattern, with) == s
  {
    if s != [] {
      if pattern <= s {
        ReplaceShortens(s[|pattern|..], pattern, with);
        assert s[0..] == s;
        assert Occurs(pattern, s);
      } else {
        ReplaceShortens(s[1..], pattern, with);
        if Occurs(pattern, s) {
          var i :| 0 <= i <= |s| && pattern <= s[i..];
          assert i > 0 by {
            assert s[0..] == s;
          }
          assert s[i..] == s[1..][i - 1..];
          assert Occurs(pattern, s[1..]);
        }
        if Occurs(pattern, s[1..]) {
          var i :| 0 <= i <= |s[1..]| && pattern <= s[1..][i..];
          assert s[1..][i..] == s[i + 1..];
        }
      }
    }
  }

  predicate HasCode(s: string) {
    exists i :: 0 <= i < 4 && Occurs(Code(i), s)
  }

  /** Unescaping never lengthens, and keeps a parameter as it is exactly when no code occurs in it. */
  lemma UnescapeFixedIffNoCode(s: string)
    ensures |Unescape(s, true)| <= |s|
    ensures Unescape(s, true) == s <==> !HasCode(s)
  {
    var s1 := Replace(s, Code(3), ",");
    var s2 := Replace(s1, Code(1), "[");
    var s3 := Replace(s2, Code(2), "]");
    ReplaceShortens(s, Code(3), ",");
    ReplaceShortens(s1, Code(1), "[");
    ReplaceShortens(s2, Code(2), "]");
    ReplaceShortens(s3, Code(0), "&");
    if HasCode(s) {
      assert Occurs(Code(3), s) || Occurs(Code(1), s) || Occurs(Code(2), s) || Occurs(Code(0), s);
    }
  }

  /** Text between codes is kept exactly if none of the three codes occurs in it; the comma's code stays. */
  lemma TextFixedIffNoCode(s: string)
    ensures |Unescape(s, false)| <= |s|
    ensures Unescape(s, false) == s <==> !Occurs(Code(0), s) && !Occurs(Code(1), s) && !Occurs(Code(2), s)
  {
    var s1 := Replace(s, Code(1), "[");
    var s2 := Replace(s1, Code(2), "]");
    ReplaceShortens(s, Code(1), "[");
    ReplaceShortens(s1, Code(2), "]");
    ReplaceShortens(s2, Code(0), "&");
  }
}
