// The backslash escaping shared by the array and hstore encoders: every
// backslash is doubled, then every double quote gets a backslash in front.

module Escaping {
  import opened Php

  /** The escape of one character. */
  function EscapeChar(c: char): string
  {
    if c == '\\' then "\\\\" else if c == '"' then "\\\"" else [c]
  }

  /** A string with `\` written `\\` and `"` written `\"`. */
  function Escape(s: string): (r: string)
    ensures |r| >= |s|
    ensures s == [] <==> r == []
    decreases |s|
  {
    if s == [] then [] else EscapeChar(s[0]) + Escape(s[1..])
  }

  /**
   * The encoders escape with two whole-string replacements, backslashes
   * first; the backslashes the second pass inserts are not doubled again,
   * so the two passes amount to escaping each character on its own.
   */
  lemma {:induction false} EscapeByReplacements(s: string)
    ensures Replace('"', "\\\"", Replace('\\', "\\\\", s)) == Escape(s)
    decreases |s|
  {
    if s != [] {
      var once := Replace('\\', "\\\\", s);
      assert once == Replace('\\', "\\\\", [s[0]]) + Replace('\\', "\\\\", s[1..]) by {
        ReplaceConcat('\\', "\\\\", [s[0]], s[1..]);
        assert [s[0]] + s[1..] == s;
      }
      ReplaceConcat('"', "\\\"", Replace('\\', "\\\\", [s[0]]), Replace('\\', "\\\\", s[1..]));
      EscapeByReplacements(s[1..]);
      assert Replace('\\', "\\\\", [s[0]]) == (if s[0] == '\\' then "\\\\" else [s[0]]) by {
        assert [s[0]][1..] == [];
      }
      if s[0] == '\\' {
        assert Replace('"', "\\\"", "\\\\") == "\\\\" by {
          assert "\\\\"[1..] == "\\";
          assert "\\"[1..] == [];
        }
      } else {
        assert [s[0]][1..] == [];
      }
    }
  }

  /** Reading back an escaped string: a backslash stands for the character after it. */
  function Unescape(s: string): string
    decreases |s|
  {
    if s == [] then []
    else if s[0] == '\\' && |s| >= 2 then [s[1]] + Unescape(s[2..])
    else [s[0]] + Unescape(s[1..])
  }

  /** Escaping loses nothing: unescaping gives the original back. */
  lemma {:induction false} UnescapeEscape(s: string)
    ensures Unescape(Escape(s)) == s
    decreases |s|
  {
    if s != [] {
      var e := Escape(s);
      assert e == EscapeChar(s[0]) + Escape(s[1..]);
      UnescapeEscape(s[1..]);
      if s[0] == '\\' || s[0] == '"' {
        assert e[0] == '\\' && e[1] == s[0];
        assert e[2..] == Escape(s[1..]);
      } else {
        assert e[0] == s[0];
        assert e[1..] == Escape(s[1..]);
      }
      assert [s[0]] + s[1..] == s;
    }
  }

  /** A text without backslashes or double quotes is its own escape. */
  lemma {:induction false} EscapePlain(s: string)
    requires '\\' !in s && '"' !in s
    ensures Escape(s) == s
    decreases |s|
  {
    if s != [] {
      EscapePlain(s[1..]);
      assert [s[0]] + s[1..] == s;
    }
  }

  /** `s` with every backslash removed. */
  function DropBackslashes(s: string): string
  {
    Replace('\\', "", s)
  }
}
