/** Escaping of text before it is written as console markup, where square brackets open and
    close style tags: each bracket is doubled so that it prints as itself. */
module Markup {
  import opened Strings

  /** `MarkupUtil.Escape`: every `[` becomes `[[`, then every `]` becomes `]]`. */
  function Escape(value: string): (r: string)
  {
    ReplaceChar(ReplaceChar(value, '[', "[["), ']', "]]")
  }

  /** The escape of one character: brackets doubled, anything else kept. */
  function EscapeChar(c: char): (r: string)
  {
    if c == '[' || c == ']' then [c, c] else [c]
  }

  /** Reads escaped markup back: a doubled bracket stands for one bracket. */
  function Unescape(s: string): (r: string)
  {
    if |s| >= 2 && (s[0] == '[' || s[0] == ']') && s[1] == s[0] then [s[0]] + Unescape(s[2..])
    else if s == [] then ""
    else [s[0]] + Unescape(s[1..])
  }

  lemma {:induction false} ReplaceCharConcat(a: string, b: string, c: char, rep: string)
    ensures ReplaceChar(a + b, c, rep) == ReplaceChar(a, c, rep) + ReplaceChar(b, c, rep)
  {
    if a != [] {
      assert (a + b)[1..] == a[1..] + b;
      ReplaceCharConcat(a[1..], b, c, rep);
    } else {
      assert a + b == b;
    }
  }

  lemma ReplaceCharSingle(x: char, c: char, rep: string)
    ensures ReplaceChar([x], c, rep) == if x == c then rep else [x]
  {
    assert [x][1..] == [];
  }

  /** Escaping works character by character, left to right. */
  lemma EscapeCons(c: char, rest: string)
    ensures Escape([c] + rest) == EscapeChar(c) + Escape(rest)
  {
    var doubled := ReplaceChar(rest, '[', "[[");
    assert ([c] + rest)[1..] == rest;
    var head := if c == '[' then "[[" else [c];
    assert ReplaceChar([c] + rest, '[', "[[") == head + doubled;
    ReplaceCharConcat(head, doubled, ']', "]]");
    if c == '[' {
      ReplaceCharConcat("[", "[", ']', "]]");
      ReplaceCharSingle('[', ']', "]]");
      assert "[" + "[" == "[[";
    } else {
      ReplaceCharSingle(c, ']', "]]");
    }
  }

  /** Unescaping an escaped text gives the text back, so no two texts escape alike. */
  lemma {:induction false} EscapeRoundTrip(value: string)
    ensures Unescape(Escape(value)) == value
  {
    if value != [] {
      EscapeCons(value[0], value[1..]);
      assert [value[0]] + value[1..] == value;
      EscapeRoundTrip(value[1..]);
      var e := Escape(value);
      var tail := Escape(value[1..]);
      if value[0] == '[' || value[0] == ']' {
        assert e[2..] == tail;
      } else {
        assert e[1..] == tail;
      }
    }
  }

  /** The escaped text is longer by the number of brackets in the input. */
  lemma {:induction false} EscapeLength(value: string)
    ensures |Escape(value)| == |value| + CountChar(value, '[') + CountChar(value, ']')
  {
    if value != [] {
      EscapeCons(value[0], value[1..]);
      assert [value[0]] + value[1..] == value;
      EscapeLength(value[1..]);
    }
  }

  /** Text without brackets is left as it is. */
  lemma {:induction false} EscapeWithoutBrackets(value: string)
    requires '[' !in value && ']' !in value
    ensures Escape(value) == value
  {
    if value != [] {
      EscapeCons(value[0], value[1..]);
      assert [value[0]] + value[1..] == value;
      EscapeWithoutBrackets(value[1..]);
    }
  }
}
