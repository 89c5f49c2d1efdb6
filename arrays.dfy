// PostgreSQL array text as PHPG_Utils writes and prepares it: the encoder
// arrayFromPhp, the normalisation arrayToPhp applies before handing a literal
// to the server, and the record list recordFromPhp builds for `IN (...)`.

module ArrayText {
  import opened Php
  import opened Escaping

  // ---------------------------------------------------------------------
  // arrayFromPhp

  /** One element of an array literal: bare `NULL`, or the escaped text in double quotes. */
  function ElementText(x: Option<string>): string
  {
    if x.None? then "NULL" else "\"" + Escape(x.value) + "\""
  }

  /** The elements' texts in order. */
  function ElementTexts(xs: seq<Option<string>>): (r: seq<string>)
    ensures |r| == |xs|
  {
    seq(|xs|, i requires 0 <= i < |xs| => ElementText(xs[i]))
  }

  /** The array literal: the elements comma-joined inside braces. */
  function ArrayLiteral(xs: seq<Option<string>>): string
  {
    "{" + Join(",", ElementTexts(xs)) + "}"
  }

  /** arrayFromPhp with auto_escape off: a loop appending to the result text. */
  method ArrayFromPhp(xs: seq<Option<string>>) returns (s: string)
    ensures s == ArrayLiteral(xs)
  {
    ghost var texts := ElementTexts(xs);
    var ret := "";
    for i := 0 to |xs|
      invariant i == 0 ==> ret == ""
      invariant i > 0 ==> |ret| >= 2 && ret == Join(",", texts[..i])
    {
      ghost var done := ret;
      assert texts[..i + 1] == texts[..i] + [texts[i]];
      if Truthy(ret) {
        ret := ret + ",";
      }
      var x := xs[i];
      assert texts[i] == ElementText(x);
      if x.None? {
        ret := ret + "NULL";
        Appended(texts, i, done, ret);
        continue;
      }
      var v := Replace('\\', "\\\\", x.value);
      v := Replace('"', "\\\"", v);
      EscapeByReplacements(x.value);
      ret := ret + ("\"" + v + "\"");
      Appended(texts, i, done, ret);
    }
    assert texts[..|xs|] == texts;
    return "{" + ret + "}";
  }

  /** One pass of arrayFromPhp's loop appends the next element after a comma, if any came before. */
  lemma Appended(texts: seq<string>, i: nat, before: string, after: string)
    requires i < |texts|
    requires i == 0 ==> before == ""
    requires i > 0 ==> before == Join(",", texts[..i])
    requires after == (if i > 0 then before + "," else before) + texts[i]
    ensures after == Join(",", texts[..i + 1])
  {
    assert texts[..i + 1] == texts[..i] + [texts[i]];
    if i > 0 {
      JoinSnoc(",", texts[..i], texts[i]);
    }
  }

  // ---------------------------------------------------------------------
  // Reading an array literal back

  /**
   * The rest of a double-quoted element: a backslash stands for the
   * character after it, and an unescaped `"` closes the element. Gives the
   * element's text and what follows the closing quote.
   */
  function ReadQuoted(s: string): (r: Option<(string, string)>)
    ensures r.Some? ==> |r.value.1| < |s|
    decreases |s|
  {
    if s == [] then None
    else if s[0] == '"' then Some(([], s[1..]))
    else if s[0] == '\\' then
      if |s| < 2 then None
      else
        var q := ReadQuoted(s[2..]);
        if q.None? then None else Some(([s[1]] + q.value.0, q.value.1))
    else
      var q := ReadQuoted(s[1..]);
      if q.None? then None else Some(([s[0]] + q.value.0, q.value.1))
  }

  /** One element, `NULL` or quoted, and the text after it. */
  function ReadElement(s: string): (r: Option<(Option<string>, string)>)
    ensures r.Some? ==> |r.value.1| < |s|
  {
    if |s| >= 4 && s[..4] == "NULL" then Some((None, s[4..]))
    else if |s| >= 1 && s[0] == '"' then
      var q := ReadQuoted(s[1..]);
      if q.None? then None else Some((Some(q.value.0), q.value.1))
    else None
  }

  /** Comma-separated elements filling the whole text. */
  function ReadElements(s: string): Option<seq<Option<string>>>
    decreases |s|
  {
    var e := ReadElement(s);
    if e.None? then None
    else if e.value.1 == [] then Some([e.value.0])
    else if e.value.1[0] == ',' then
      var more := ReadElements(e.value.1[1..]);
      if more.None? then None else Some([e.value.0] + more.value)
    else None
  }

  /**
   * An array literal in the form the encoder writes: braces around
   * comma-separated elements, each `NULL` or double-quoted with backslash
   * escapes, as PostgreSQL's array input reads them.
   */
  function ReadArray(s: string): Option<seq<Option<string>>>
  {
    if |s| >= 2 && s[0] == '{' && s[|s| - 1] == '}' then
      var body := s[1..|s| - 1];
      if body == [] then Some([]) else ReadElements(body)
    else None
  }

  /** A quoted element is read up to the quote that closes it, escapes undone. */
  lemma {:induction false} ReadEscaped(t: string, rest: string)
    ensures ReadQuoted(Escape(t) + "\"" + rest) == Some((t, rest))
    decreases |t|
  {
    var s := Escape(t) + "\"" + rest;
    if t == [] {
      assert s == "\"" + rest;
      assert s[1..] == rest;
    } else {
      var u := Escape(t[1..]) + "\"" + rest;
      ReadEscaped(t[1..], rest);
      assert s == EscapeChar(t[0]) + u;
      ReadQuotedChar(t[0], u);
      assert [t[0]] + t[1..] == t;
    }
  }

  /** One escaped character is read back as itself, followed by what comes after it. */
  lemma ReadQuotedChar(c: char, u: string)
    ensures ReadQuoted(EscapeChar(c) + u)
         == (var q := ReadQuoted(u); if q.None? then None else Some(([c] + q.value.0, q.value.1)))
  {
    var s := EscapeChar(c) + u;
    if c == '\\' || c == '"' {
      assert s[0] == '\\' && s[1] == c && s[2..] == u;
    } else {
      assert s[0] == c && s[1..] == u;
    }
  }

  /** An element's text is read back as that element. */
  lemma ReadElementText(x: Option<string>, rest: string)
    ensures ReadElement(ElementText(x) + rest) == Some((x, rest))
  {
    var s := ElementText(x) + rest;
    if x.None? {
      assert s[..4] == "NULL";
      assert s[4..] == rest;
    } else {
      assert s[0] == '"';
      assert s[1..] == Escape(x.value) + "\"" + rest;
      ReadEscaped(x.value, rest);
    }
  }

  /** The comma-joined element texts are read back as the elements. */
  lemma {:induction false} ReadJoined(xs: seq<Option<string>>)
    requires |xs| >= 1
    ensures ReadElements(Join(",", ElementTexts(xs))) == Some(xs)
    decreases |xs|
  {
    var texts := ElementTexts(xs);
    if |xs| == 1 {
      ReadElementText(xs[0], []);
      assert ElementText(xs[0]) + [] == texts[0];
      assert Join(",", texts) == texts[0];
      assert xs == [xs[0]];
    } else {
      var tail := Join(",", ElementTexts(xs[1..]));
      assert texts[1..] == ElementTexts(xs[1..]);
      assert Join(",", texts) == ElementText(xs[0]) + ("," + tail);
      ReadElementText(xs[0], "," + tail);
      assert ("," + tail)[1..] == tail;
      ReadJoined(xs[1..]);
      assert [xs[0]] + xs[1..] == xs;
    }
  }

  /** arrayFromPhp loses nothing: its literal is read back as the same elements. */
  lemma ArrayRoundTrip(xs: seq<Option<string>>)
    ensures ReadArray(ArrayLiteral(xs)) == Some(xs)
  {
    var s := ArrayLiteral(xs);
    assert s[1..|s| - 1] == Join(",", ElementTexts(xs));
    if xs != [] {
      ReadJoined(xs);
    }
  }

  /** A null element, and a value holding `"` and `\`, as arrayFromPhp writes them. */
  lemma ArrayLiteralExample(xs: seq<Option<string>>)
    requires xs == [Some("x"), None, Some("y\"z")]
    ensures ArrayLiteral(xs) == "{\"x\",NULL,\"y\\\"z\"}"
  {
    var e := ElementTexts(xs);
    SampleElementTexts(xs);
    assert e[1..][1..] == [e[2]];
    assert Join(",", e[1..]) == e[1] + "," + e[2];
  }

  /** Each element of that sample as the encoder writes it. */
  lemma SampleElementTexts(xs: seq<Option<string>>)
    requires xs == [Some("x"), None, Some("y\"z")]
    ensures ElementTexts(xs) == ["\"x\"", "NULL", "\"y\\\"z\""]
  {
    EscapePlain("x");
    assert Escape("y\"z") == "y\\\"z" by {
      assert "y\"z"[1..] == "\"z";
      assert "\"z"[1..] == "z";
      EscapePlain("z");
    }
    var e := ElementTexts(xs);
    assert e[0] == "\"x\"" && e[1] == "NULL" && e[2] == "\"y\\\"z\"";
  }

  // ---------------------------------------------------------------------
  // arrayToPhp: the preparation before the server splits the literal

  /** Starts with `{` and ends with `}`. */
  predicate Braced(s: string)
  {
    |s| >= 2 && s[0] == '{' && s[|s| - 1] == '}'
  }

  /**
   * `{` is put in front unless the text starts with one (an empty text
   * included), then `}` appended unless it already ends with one.
   */
  function NormalizeLiteral(s: string): (r: string)
    ensures Braced(r)
    ensures Braced(s) ==> r == s
    ensures r == s || r == "{" + s || r == s + "}" || r == "{" + s + "}"
    ensures |r| == |s| + (if s != [] && s[0] == '{' then 0 else 1) + (if s != [] && s[|s| - 1] == '}' then 0 else 1)
  {
    var a := if s != [] && s[0] == '{' then s else "{" + s;
    if a[|a| - 1] == '}' then a else a + "}"
  }

  /** Normalising twice is normalising once. */
  lemma NormalizeLiteralIdempotent(s: string)
    ensures NormalizeLiteral(NormalizeLiteral(s)) == NormalizeLiteral(s)
  {
  }

  /** What arrayFromPhp writes is already normalised. */
  lemma NormalizeArrayLiteral(xs: seq<Option<string>>)
    ensures NormalizeLiteral(ArrayLiteral(xs)) == ArrayLiteral(xs)
  {
    var s := ArrayLiteral(xs);
    assert s[0] == '{' && s[|s| - 1] == '}';
  }

  /** The type name ends in `[]`, appended when missing. */
  function NormalizeType(t: string): (r: string)
    ensures |r| >= 2 && r[|r| - 2..] == "[]"
    ensures |t| >= 2 && t[|t| - 2..] == "[]" ==> r == t
    ensures r == t || r == t + "[]"
  {
    if |t| >= 2 && t[|t| - 2..] == "[]" then t
    else
      assert (t + "[]")[|t|..] == "[]";
      t + "[]"
  }

  /**
   * arrayToPhp: null stays null; otherwise the server's `UNNEST` (the
   * function `unnest`, given the literal and the type name) of the
   * normalised literal.
   */
  function ArrayToPhp(s: Option<string>, t: string,
                      unnest: (string, string) -> seq<Option<string>>): (r: Option<seq<Option<string>>>)
    ensures r.None? <==> s.None?
    ensures s.Some? ==> r == Some(unnest(NormalizeLiteral(s.value), NormalizeType(t)))
    ensures s.Some? && Braced(s.value) ==> r == Some(unnest(s.value, NormalizeType(t)))
  {
    if s.None? then None else Some(unnest(NormalizeLiteral(s.value), NormalizeType(t)))
  }

  /**
   * With a server that splits literals as ReadArray does, arrayToPhp
   * returns the elements arrayFromPhp was given.
   */
  lemma ArrayToPhpOfArrayFromPhp(xs: seq<Option<string>>, t: string,
                                 unnest: (string, string) -> seq<Option<string>>)
    requires forall s :: ReadArray(s).Some? ==> unnest(s, NormalizeType(t)) == ReadArray(s).value
    ensures ArrayToPhp(Some(ArrayLiteral(xs)), t, unnest) == Some(xs)
  {
    NormalizeArrayLiteral(xs);
    ArrayRoundTrip(xs);
  }

  // ---------------------------------------------------------------------
  // recordFromPhp

  /** The filters recordFromPhp applies in 'integer' and 'string' mode. */
  datatype RecordMode = IntegerRecord | StringRecord

  /** ctype_digit on a string: not empty, and every character one of 0-9. */
  predicate Digits(s: string)
  {
    |s| > 0 && forall i :: 0 <= i < |s| ==> '0' <= s[i] <= '9'
  }

  /** array_filter with ctype_digit: the digit strings, in their order. */
  function KeepDigits(xs: seq<string>): (r: seq<string>)
    ensures forall i :: 0 <= i < |r| ==> Digits(r[i])
    ensures forall x :: x in r <==> x in xs && Digits(x)
    ensures |r| <= |xs|
    ensures (forall i :: 0 <= i < |xs| ==> Digits(xs[i])) ==> r == xs
    decreases |xs|
  {
    if xs == [] then []
    else if Digits(xs[0]) then [xs[0]] + KeepDigits(xs[1..])
    else KeepDigits(xs[1..])
  }

  /** The filter works entry by entry, so it distributes over concatenation. */
  lemma {:induction false} KeepDigitsAppend(xs: seq<string>, ys: seq<string>)
    ensures KeepDigits(xs + ys) == KeepDigits(xs) + KeepDigits(ys)
    decreases |xs|
  {
    if xs == [] {
      assert xs + ys == ys;
    } else {
      assert (xs + ys)[1..] == xs[1..] + ys;
      KeepDigitsAppend(xs[1..], ys);
    }
  }

  /** The entries that remain after the mode's filter. */
  function Kept(xs: seq<string>, mode: RecordMode): seq<string>
  {
    if mode == IntegerRecord then KeepDigits(xs) else xs
  }

  /** recordFromPhp without auto_escape: '' for nothing left, else `'a','b',...`. */
  function RecordFromPhp(xs: seq<string>, mode: RecordMode): (r: string)
    ensures r == "" <==> Kept(xs, mode) == []
    ensures r != "" ==> |r| >= 2 && r[0] == '\'' && r[|r| - 1] == '\''
  {
    var kept := Kept(xs, mode);
    if kept == [] then "" else "'" + Join("','", kept) + "'"
  }

  /** Every character of an implode comes from a part or from the delimiter. */
  lemma {:induction false} JoinChars(d: string, parts: seq<string>, ok: char -> bool)
    requires forall c :: c in d ==> ok(c)
    requires forall i, c :: 0 <= i < |parts| && c in parts[i] ==> ok(c)
    ensures forall c :: c in Join(d, parts) ==> ok(c)
    decreases |parts|
  {
    if |parts| > 1 {
      JoinChars(d, parts[1..], ok);
      assert Join(d, parts) == parts[0] + d + Join(d, parts[1..]);
    } else if |parts| == 1 {
      assert Join(d, parts) == parts[0];
    }
  }

  /** In 'integer' mode the record holds nothing but digits, quotes and commas. */
  lemma IntegerRecordChars(xs: seq<string>)
    ensures forall c :: c in RecordFromPhp(xs, IntegerRecord) ==> c == '\'' || c == ',' || '0' <= c <= '9'
  {
    var kept := KeepDigits(xs);
    var ok := (c: char) => c == '\'' || c == ',' || '0' <= c <= '9';
    forall i, c | 0 <= i < |kept| && c in kept[i] ensures ok(c) {
      assert Digits(kept[i]);
    }
    JoinChars("','", kept, ok);
  }

  /**
   * In 'integer' mode the record splits back, on `','` between the outer
   * quotes, into the digit entries in their order.
   */
  lemma IntegerRecordSplits(xs: seq<string>)
    requires KeepDigits(xs) != []
    ensures var r := RecordFromPhp(xs, IntegerRecord);
            Explode("','", r[1..|r| - 1]) == KeepDigits(xs)
  {
    var kept := KeepDigits(xs);
    var r := RecordFromPhp(xs, IntegerRecord);
    assert r[1..|r| - 1] == Join("','", kept);
    forall i | 0 <= i < |kept| ensures '\'' !in kept[i] {
      assert Digits(kept[i]);
    }
    NoOccurrenceOfHead("','", kept[|kept| - 1]);
    ExplodeJoin("','", kept);
  }

  /**
   * In 'string' mode, with entries that hold no single quote, the record
   * splits back, on `','` between the outer quotes, into the entries.
   */
  lemma StringRecordSplits(xs: seq<string>)
    requires xs != []
    requires forall i :: 0 <= i < |xs| ==> '\'' !in xs[i]
    ensures var r := RecordFromPhp(xs, StringRecord);
            Explode("','", r[1..|r| - 1]) == xs
  {
    var r := RecordFromPhp(xs, StringRecord);
    assert r[1..|r| - 1] == Join("','", xs);
    NoOccurrenceOfHead("','", xs[|xs| - 1]);
    ExplodeJoin("','", xs);
  }
}
