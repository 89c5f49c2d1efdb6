// The hstore text codec: the character-by-character decoder of
// `key=>value` text into an ordered map, and the encoder of a map into that
// text.

module Hstore {
  import opened Php
  import opened Escaping
  import opened ArrayText

  // ---------------------------------------------------------------------
  // The decoder's state machine

  /** What the decoder is reading: `$parsing`. */
  datatype Mode = KeyMode | ValueMode

  /**
   * The decoder's variables: `$prev`, `$quoted`, `$parsing`, `$key`,
   * `$part`, `$skip` and the map built so far, `$return`. `$prev` is null,
   * the opening quote, a backslash, or the part as it was before the last
   * character was appended.
   */
  datatype Scan = Scan(prev: Option<string>, quoted: bool, parsing: Mode,
                       key: Option<string>, part: Option<string>, skip: nat,
                       ret: Assoc<Option<string>>)

  /** The variables before the first character. */
  const Init := Scan(None, false, KeyMode, Some(""), None, 0, [])

  /** PHP stores an entry under a null key as the empty key. */
  function KeyName(k: Option<string>): string
  {
    if k.Some? then k.value else ""
  }

  /** The text of a part, null read as empty. */
  function TextOf(p: Option<string>): string
  {
    if p.Some? then p.value else ""
  }

  /** `if ($part === Null) $part = ''; $prev = $part; $part .= $character;` */
  function Append(st: Scan, c: char): Scan
  {
    st.(prev := Some(TextOf(st.part)), part := Some(TextOf(st.part) + [c]))
  }

  /** One turn of the decoder's loop, on character `c`. */
  function Step(st: Scan, c: char): Scan
  {
    if st.skip > 0 then st.(skip := st.skip - 1)
    else if st.prev.None? && c == '"' then st.(quoted := true, prev := Some("\""))
    else if st.quoted then
      if c == '\\' then st.(prev := Some("\\"))
      else if c == '"' && st.prev != Some("\\") then
        if st.parsing == KeyMode then
          st.(prev := None, quoted := false, parsing := ValueMode, key := st.part, skip := 2, part := None)
        else
          st.(prev := None, quoted := false, parsing := KeyMode, ret := Put(st.ret, KeyName(st.key), st.part),
              key := Some(""), skip := 2, part := None)
      else Append(st, c)
    else if st.part.None? && c == ',' then st.(skip := 1)
    else if st.parsing == KeyMode && c == '=' then
      st.(prev := None, quoted := false, parsing := ValueMode, key := st.part, skip := 1, part := None)
    else if st.parsing == ValueMode && c == ',' then
      st.(prev := None, quoted := false, parsing := KeyMode, ret := Put(st.ret, KeyName(st.key), st.part),
          key := Some(""), part := None, skip := 1)
    else Append(st, c)
  }

  /** The loop over a whole text. */
  function Run(st: Scan, s: string): Scan
    decreases |s|
  {
    if s == [] then st else Run(Step(st, s[0]), s[1..])
  }

  /** After the loop: a part still open, or a value begun, is stored under the current key. */
  function Finish(st: Scan): Assoc<Option<string>>
  {
    if st.prev.Some? || st.part.Some? then Put(st.ret, KeyName(st.key), st.part) else st.ret
  }

  /** _hstoreToPhpHelper. */
  function Decode(s: string): Assoc<Option<string>>
  {
    Finish(Run(Init, s))
  }

  /** _hstoreToPhpHelper as written: a loop over the characters updating the decoder's variables. */
  method HstoreToPhpHelper(s: string) returns (result: Assoc<Option<string>>)
    ensures result == Decode(s)
  {
    var ret: Assoc<Option<string>> := [];
    var prev: Option<string> := None;
    var quoted := false;
    var parsing := KeyMode;
    var key: Option<string> := Some("");
    var part: Option<string> := None;
    var skip: nat := 0;
    for i := 0 to |s|
      invariant Run(Scan(prev, quoted, parsing, key, part, skip, ret), s[i..]) == Run(Init, s)
    {
      ghost var before := Scan(prev, quoted, parsing, key, part, skip, ret);
      assert s[i..][1..] == s[i + 1..];
      var c := s[i];
      if skip > 0 {
        skip := skip - 1;
        continue;
      }
      if prev == None && c == '"' {
        quoted := true;
        prev := Some("\"");
        continue;
      } else {
        if quoted {
          if c == '\\' {
            prev := Some("\\");
            continue;
          }
          if c == '"' && prev != Some("\\") {
            prev := None;
            quoted := false;
            if parsing == KeyMode {
              parsing := ValueMode;
              key := part;
              skip := 2;
            } else {
              parsing := KeyMode;
              ret := Put(ret, KeyName(key), part);
              key := Some("");
              skip := 2;
            }
            part := None;
            continue;
          }
        } else {
          if part == None && c == ',' {
            skip := 1;
            continue;
          }
          if parsing == KeyMode && c == '=' {
            prev := None;
            quoted := false;
            parsing := ValueMode;
            key := part;
            skip := 1;
            part := None;
            continue;
          } else if parsing == ValueMode && c == ',' {
            prev := None;
            quoted := false;
            parsing := KeyMode;
            ret := Put(ret, KeyName(key), part);
            key := Some("");
            part := None;
            skip := 1;
            continue;
          }
        }
        if part == None {
          part := Some("");
        }
        prev := part;
        part := Some(part.value + [c]);
      }
      assert Scan(prev, quoted, parsing, key, part, skip, ret) == Step(before, c);
    }
    var last := Scan(prev, quoted, parsing, key, part, skip, ret);
    assert s[|s|..] == [];
    if prev != None || part != None {
      ret := Put(ret, KeyName(key), part);
    }
    assert ret == Finish(last);
    result := ret;
  }

  /** The loop over two texts in turn is the loop over their concatenation. */
  lemma {:induction false} RunConcat(st: Scan, a: string, b: string)
    ensures Run(st, a + b) == Run(Run(st, a), b)
    decreases |a|
  {
    if a == [] {
      assert a + b == b;
    } else {
      assert (a + b)[0] == a[0];
      assert (a + b)[1..] == a[1..] + b;
      RunConcat(Step(st, a[0]), a[1..], b);
    }
  }

  // ---------------------------------------------------------------------
  // Quoted parts

  /** A part extended by some text: appending nothing leaves a null part null. */
  function Extend(p: Option<string>, u: string): Option<string>
  {
    if u == [] then p else Some(TextOf(p) + u)
  }

  /** The part a quoted text leaves when it starts from null: null if nothing was appended. */
  function PartOf(u: string): Option<string>
  {
    if u == [] then None else Some(u)
  }

  lemma ExtendNone(u: string)
    ensures Extend(None, u) == PartOf(u)
  {
    assert TextOf(None) + u == u;
  }

  lemma ExtendConcat(p: Option<string>, a: string, b: string)
    ensures Extend(Extend(p, a), b) == Extend(p, a + b)
  {
    if a == [] {
      assert a + b == b;
    } else if b != [] {
      assert TextOf(p) + a + b == TextOf(p) + (a + b);
    } else {
      assert a + b == a;
    }
  }

  /** The part holds no backslash. */
  predicate NoBackslash(p: Option<string>)
  {
    p.None? || '\\' !in p.value
  }

  /**
   * Inside a quoted part: the frame (`parsing`, `key`, the map) is kept, the
   * part is `part`, and `pending` says whether the last character read was a
   * backslash, which makes a following `"` literal.
   */
  predicate InQuote(st: Scan, parsing: Mode, key: Option<string>, ret: Assoc<Option<string>>,
                    part: Option<string>, pending: bool)
  {
    st.quoted && st.skip == 0 && st.prev.Some? && (st.prev == Some("\\") <==> pending) &&
    st.parsing == parsing && st.key == key && st.ret == ret && st.part == part && NoBackslash(part)
  }

  /** The escape of one character, read inside a quoted part. */
  lemma QuotedChar(st: Scan, parsing: Mode, key: Option<string>, ret: Assoc<Option<string>>,
                   part: Option<string>, pending: bool, c: char)
    requires InQuote(st, parsing, key, ret, part, pending)
    ensures InQuote(Run(st, EscapeChar(c)), parsing, key, ret, Extend(part, DropBackslashes([c])), c == '\\')
  {
    ReplaceOne('\\', "", c);
    var e := EscapeChar(c);
    if c == '\\' {
      assert e == ['\\'] + ['\\'];
      RunConcat(st, ['\\'], ['\\']);
      assert Run(st, ['\\']) == st.(prev := Some("\\"));
      assert Run(st.(prev := Some("\\")), ['\\']) == st.(prev := Some("\\"));
    } else if c == '"' {
      assert e == ['\\'] + ['"'];
      RunConcat(st, ['\\'], ['"']);
      var mid := st.(prev := Some("\\"));
      assert Run(st, ['\\']) == mid;
      assert Run(mid, ['"']) == Append(mid, '"');
      assert TextOf(part) != "\\" by {
        if part.Some? { assert '\\' !in part.value; }
      }
      assert '\\' !in TextOf(part) + ['"'];
    } else {
      assert Run(st, [c]) == Append(st, c);
      assert TextOf(part) != "\\" by {
        if part.Some? { assert '\\' !in part.value; }
      }
      assert '\\' !in TextOf(part) + [c];
    }
  }

  /** The escape of a whole text, read inside a quoted part, appends the text without its backslashes. */
  lemma {:induction false} QuotedRun(st: Scan, parsing: Mode, key: Option<string>, ret: Assoc<Option<string>>,
                                     part: Option<string>, pending: bool, t: string)
    requires InQuote(st, parsing, key, ret, part, pending)
    ensures InQuote(Run(st, Escape(t)), parsing, key, ret, Extend(part, DropBackslashes(t)),
                    if t == [] then pending else t[|t| - 1] == '\\')
    decreases |t|
  {
    if t != [] {
      var c := t[0];
      QuotedChar(st, parsing, key, ret, part, pending, c);
      var mid := Run(st, EscapeChar(c));
      var part' := Extend(part, DropBackslashes([c]));
      QuotedRun(mid, parsing, key, ret, part', c == '\\', t[1..]);
      assert Escape(t) == EscapeChar(c) + Escape(t[1..]);
      RunConcat(st, EscapeChar(c), Escape(t[1..]));
      assert [c] + t[1..] == t;
      ReplaceConcat('\\', "", [c], t[1..]);
      ExtendConcat(part, DropBackslashes([c]), DropBackslashes(t[1..]));
      assert Extend(part', DropBackslashes(t[1..])) == Extend(part, DropBackslashes(t));
      if |t| > 1 {
        assert t[1..][|t[1..]| - 1] == t[|t| - 1];
      }
    }
  }

  // ---------------------------------------------------------------------
  // Keys and values

  /** Between pairs: reading a key, nothing open, `skip` characters still to skip. */
  function After(ret: Assoc<Option<string>>, skip: nat): Scan
  {
    Scan(None, false, KeyMode, Some(""), None, skip, ret)
  }

  /** A key has been read and its `=>` skipped; the value comes next. */
  function ValueStart(ret: Assoc<Option<string>>, key: Option<string>): Scan
  {
    Scan(None, false, ValueMode, key, None, 0, ret)
  }

  /** A quoted text whose closing quote is not made literal by a trailing backslash. */
  predicate Closable(t: string)
  {
    t == [] || t[|t| - 1] != '\\'
  }

  /** A quoted key and its `=>`. */
  lemma QuotedKey(ret: Assoc<Option<string>>, t: string)
    requires Closable(t)
    ensures Run(After(ret, 0), "\"" + Escape(t) + "\"=>") == ValueStart(ret, PartOf(DropBackslashes(t)))
  {
    ExtendNone(DropBackslashes(t));
    var st1 := Step(After(ret, 0), '"');
    assert InQuote(st1, KeyMode, Some(""), ret, None, false);
    QuotedRun(st1, KeyMode, Some(""), ret, None, false, t);
    var st2 := Run(st1, Escape(t));
    var k := Extend(None, DropBackslashes(t));
    var st3 := Step(st2, '"');
    assert st3 == Scan(None, false, ValueMode, k, None, 2, ret);
    assert Run(st3, "=>") == ValueStart(ret, k) by {
      assert "=>"[1..] == ">";
    }
    assert "\"" + Escape(t) + "\"=>" == ['"'] + (Escape(t) + (['"'] + "=>"));
    RunConcat(After(ret, 0), ['"'], Escape(t) + (['"'] + "=>"));
    RunConcat(st1, Escape(t), ['"'] + "=>");
    RunConcat(st2, ['"'], "=>");
  }

  /** A quoted value: the pair is stored and the two characters after the closing quote are to be skipped. */
  lemma QuotedValue(ret: Assoc<Option<string>>, key: Option<string>, t: string)
    requires Closable(t)
    ensures Run(ValueStart(ret, key), "\"" + Escape(t) + "\"")
         == After(Put(ret, KeyName(key), PartOf(DropBackslashes(t))), 2)
  {
    ExtendNone(DropBackslashes(t));
    var st1 := Step(ValueStart(ret, key), '"');
    assert InQuote(st1, ValueMode, key, ret, None, false);
    QuotedRun(st1, ValueMode, key, ret, None, false, t);
    var st2 := Run(st1, Escape(t));
    assert "\"" + Escape(t) + "\"" == ['"'] + (Escape(t) + ['"']);
    RunConcat(ValueStart(ret, key), ['"'], Escape(t) + ['"']);
    RunConcat(st1, Escape(t), ['"']);
    assert Run(st2, ['"']) == Step(st2, '"');
  }

  /** The character that ends an unquoted part in each mode. */
  predicate Ends(parsing: Mode, c: char)
  {
    if parsing == KeyMode then c == '=' else c == ','
  }

  /** Inside an unquoted part `p`. */
  predicate InBare(st: Scan, parsing: Mode, key: Option<string>, ret: Assoc<Option<string>>, p: string)
  {
    st.prev.Some? && !st.quoted && st.parsing == parsing && st.key == key && st.part == Some(p) &&
    st.skip == 0 && st.ret == ret
  }

  /** An unquoted part takes every character up to the one that ends it. */
  lemma {:induction false} BareRun(st: Scan, parsing: Mode, key: Option<string>, ret: Assoc<Option<string>>,
                                   p: string, u: string)
    requires InBare(st, parsing, key, ret, p)
    requires forall i :: 0 <= i < |u| ==> !Ends(parsing, u[i])
    ensures InBare(Run(st, u), parsing, key, ret, p + u)
    decreases |u|
  {
    if u == [] {
      assert p + u == p;
    } else {
      var st1 := Step(st, u[0]);
      assert st1 == Append(st, u[0]);
      BareRun(st1, parsing, key, ret, p + [u[0]], u[1..]);
      assert p + [u[0]] + u[1..] == p + u;
    }
  }

  /** The first character of an unquoted part, which must not open a quote or look like a stray comma. */
  lemma BareFirst(st: Scan, parsing: Mode, key: Option<string>, ret: Assoc<Option<string>>, c: char)
    requires st == Scan(None, false, parsing, key, None, 0, ret)
    requires c != '"' && c != ',' && !Ends(parsing, c)
    ensures InBare(Step(st, c), parsing, key, ret, [c])
  {
    assert Step(st, c) == Append(st, c);
    assert TextOf(st.part) + [c] == [c];
  }

  /** An unquoted text of the given mode: non-empty, not opening a quote, free of its end character. */
  predicate BareText(parsing: Mode, t: string)
  {
    t != [] && t[0] != '"' && t[0] != ',' && forall i :: 0 <= i < |t| ==> !Ends(parsing, t[i])
  }

  /** An unquoted part read from its first character. */
  lemma BarePart(st: Scan, parsing: Mode, key: Option<string>, ret: Assoc<Option<string>>, t: string)
    requires st == Scan(None, false, parsing, key, None, 0, ret)
    requires BareText(parsing, t)
    ensures InBare(Run(st, t), parsing, key, ret, t)
  {
    BareFirst(st, parsing, key, ret, t[0]);
    assert forall i :: 0 <= i < |t[1..]| ==> !Ends(parsing, t[1..][i]) by {
      forall i | 0 <= i < |t[1..]| ensures !Ends(parsing, t[1..][i]) {
        assert t[1..][i] == t[i + 1];
      }
    }
    BareRun(Step(st, t[0]), parsing, key, ret, [t[0]], t[1..]);
    assert [t[0]] + t[1..] == t;
  }

  /** An unquoted key and its `=>`. */
  lemma BareKey(ret: Assoc<Option<string>>, t: string)
    requires BareText(KeyMode, t)
    ensures Run(After(ret, 0), t + "=>") == ValueStart(ret, Some(t))
  {
    BarePart(After(ret, 0), KeyMode, Some(""), ret, t);
    var st := Run(After(ret, 0), t);
    RunConcat(After(ret, 0), t, "=>");
    assert Step(st, '=') == Scan(None, false, ValueMode, Some(t), None, 1, ret);
    assert "=>"[1..] == ">";
  }

  /** An unquoted value, still open at its end. */
  lemma BareValue(ret: Assoc<Option<string>>, key: Option<string>, t: string)
    requires BareText(ValueMode, t)
    ensures InBare(Run(ValueStart(ret, key), t), ValueMode, key, ret, t)
  {
    BarePart(ValueStart(ret, key), ValueMode, key, ret, t);
  }

  /** The separator `, ` after an open unquoted value stores the pair. */
  lemma BareValueThenSeparator(st: Scan, key: Option<string>, ret: Assoc<Option<string>>, t: string)
    requires InBare(st, ValueMode, key, ret, t)
    ensures Run(st, ", ") == After(Put(ret, KeyName(key), Some(t)), 0)
  {
    assert ", "[1..] == " ";
  }

  /** The separator `, ` after a closed quoted value is skipped. */
  lemma SkippedSeparator(ret: Assoc<Option<string>>)
    ensures Run(After(ret, 2), ", ") == After(ret, 0)
  {
    assert ", "[1..] == " ";
  }

  // ---------------------------------------------------------------------
  // Whole texts

  /** A key or value as written in hstore text: in double quotes with `\` escapes, or bare. */
  datatype Field = Quoted(text: string) | Bare(text: string)

  function FieldText(f: Field): string
  {
    match f
    case Quoted(t) => "\"" + Escape(t) + "\""
    case Bare(t) => t
  }

  /** `key=>value` */
  function PairText(k: Field, v: Field): string
  {
    FieldText(k) + "=>" + FieldText(v)
  }

  /** Pairs separated by `, `, as PostgreSQL writes them. */
  function PairsText(ps: seq<(Field, Field)>): string
  {
    Join(", ", seq(|ps|, i requires 0 <= i < |ps| => PairText(ps[i].0, ps[i].1)))
  }

  /** A key the decoder can read: a bare key is ended by `=`. */
  predicate KeyField(f: Field)
  {
    match f
    case Quoted(t) => Closable(t)
    case Bare(t) => BareText(KeyMode, t)
  }

  /** A value the decoder can read: a bare value is ended by `,`. */
  predicate ValueField(f: Field)
  {
    match f
    case Quoted(t) => Closable(t)
    case Bare(t) => BareText(ValueMode, t)
  }

  predicate Readable(ps: seq<(Field, Field)>)
  {
    forall i :: 0 <= i < |ps| ==> KeyField(ps[i].0) && ValueField(ps[i].1)
  }

  /** The key the decoder stores: backslashes dropped from a quoted key. */
  function FieldKey(f: Field): string
  {
    match f
    case Quoted(t) => DropBackslashes(t)
    case Bare(t) => t
  }

  /**
   * The value the decoder stores: a quoted value without its backslashes,
   * null when nothing is left of it; a bare value as it stands, so the
   * token `NULL` is the text "NULL".
   */
  function FieldValue(f: Field): Option<string>
  {
    match f
    case Quoted(t) => PartOf(DropBackslashes(t))
    case Bare(t) => Some(t)
  }

  /** The map the decoder builds from the pairs, assigning them in order. */
  function Collect(ret: Assoc<Option<string>>, ps: seq<(Field, Field)>): Assoc<Option<string>>
    decreases |ps|
  {
    if ps == [] then ret
    else Collect(Put(ret, FieldKey(ps[0].0), FieldValue(ps[0].1)), ps[1..])
  }

  /** The key as the decoder holds it in `$key` once read. */
  function KeyPart(k: Field): Option<string>
  {
    match k
    case Quoted(t) => PartOf(DropBackslashes(t))
    case Bare(t) => Some(t)
  }

  /** A key and its `=>`, in either form. */
  lemma KeyThenArrow(ret: Assoc<Option<string>>, k: Field)
    requires KeyField(k)
    ensures KeyName(KeyPart(k)) == FieldKey(k)
    ensures Run(After(ret, 0), FieldText(k) + "=>") == ValueStart(ret, KeyPart(k))
  {
    match k
    case Quoted(t) =>
      assert FieldText(k) + "=>" == "\"" + Escape(t) + "\"=>";
      QuotedKey(ret, t);
    case Bare(t) =>
      BareKey(ret, t);
  }

  /** A value followed by the separator `, `. */
  lemma ValueThenSeparator(ret: Assoc<Option<string>>, key: Option<string>, v: Field)
    requires ValueField(v)
    ensures Run(ValueStart(ret, key), FieldText(v) + ", ") == After(Put(ret, KeyName(key), FieldValue(v)), 0)
  {
    var st := ValueStart(ret, key);
    RunConcat(st, FieldText(v), ", ");
    match v
    case Quoted(t) =>
      QuotedValue(ret, key, t);
      SkippedSeparator(Put(ret, KeyName(key), PartOf(DropBackslashes(t))));
    case Bare(t) =>
      BareValue(ret, key, t);
      BareValueThenSeparator(Run(st, t), key, ret, t);
  }

  /** A value at the end of the text. */
  lemma LastValue(ret: Assoc<Option<string>>, key: Option<string>, v: Field)
    requires ValueField(v)
    ensures Finish(Run(ValueStart(ret, key), FieldText(v))) == Put(ret, KeyName(key), FieldValue(v))
  {
    var st := Run(ValueStart(ret, key), FieldText(v));
    if v.Quoted? {
      QuotedValue(ret, key, v.text);
      assert st == After(Put(ret, KeyName(key), FieldValue(v)), 2);
    } else {
      BareValue(ret, key, v.text);
      assert InBare(st, ValueMode, key, ret, v.text);
    }
  }

  /** A pair followed by the separator `, `. */
  lemma PairThenSeparator(ret: Assoc<Option<string>>, k: Field, v: Field)
    requires KeyField(k) && ValueField(v)
    ensures Run(After(ret, 0), PairText(k, v) + ", ") == After(Put(ret, FieldKey(k), FieldValue(v)), 0)
  {
    var head := FieldText(k) + "=>";
    assert PairText(k, v) + ", " == head + (FieldText(v) + ", ");
    RunConcat(After(ret, 0), head, FieldText(v) + ", ");
    KeyThenArrow(ret, k);
    ValueThenSeparator(ret, KeyPart(k), v);
  }

  /** The last pair, stored when the text ends. */
  lemma LastPair(ret: Assoc<Option<string>>, k: Field, v: Field)
    requires KeyField(k) && ValueField(v)
    ensures Finish(Run(After(ret, 0), PairText(k, v))) == Put(ret, FieldKey(k), FieldValue(v))
  {
    var head := FieldText(k) + "=>";
    RunConcat(After(ret, 0), head, FieldText(v));
    KeyThenArrow(ret, k);
    LastValue(ret, KeyPart(k), v);
  }

  /** The text of several pairs: the first pair, a comma and a space, then the rest. */
  lemma PairsTextCons(ps: seq<(Field, Field)>)
    requires |ps| > 1
    ensures PairsText(ps) == (PairText(ps[0].0, ps[0].1) + ", ") + PairsText(ps[1..])
  {
    var texts := seq(|ps|, i requires 0 <= i < |ps| => PairText(ps[i].0, ps[i].1));
    assert texts[1..] == seq(|ps[1..]|, i requires 0 <= i < |ps[1..]| => PairText(ps[1..][i].0, ps[1..][i].1));
  }

  /** Decoding the rest of a text from between two pairs. */
  lemma {:induction false} DecodeFrom(ret: Assoc<Option<string>>, ps: seq<(Field, Field)>)
    requires |ps| >= 1 && Readable(ps)
    ensures Finish(Run(After(ret, 0), PairsText(ps))) == Collect(ret, ps)
    decreases |ps|
  {
    if |ps| == 1 {
      LastPair(ret, ps[0].0, ps[0].1);
      assert Collect(Put(ret, FieldKey(ps[0].0), FieldValue(ps[0].1)), ps[1..])
          == Put(ret, FieldKey(ps[0].0), FieldValue(ps[0].1));
    } else {
      var next := Put(ret, FieldKey(ps[0].0), FieldValue(ps[0].1));
      PairsTextCons(ps);
      assert Readable(ps[1..]) by {
        forall i | 0 <= i < |ps[1..]| ensures KeyField(ps[1..][i].0) && ValueField(ps[1..][i].1) {
          assert ps[1..][i] == ps[i + 1];
        }
      }
      RunConcat(After(ret, 0), PairText(ps[0].0, ps[0].1) + ", ", PairsText(ps[1..]));
      PairThenSeparator(ret, ps[0].0, ps[0].1);
      DecodeFrom(next, ps[1..]);
    }
  }

  /**
   * _hstoreToPhpHelper reads text in PostgreSQL's layout: pairs in order,
   * each key's backslashes dropped, a later pair replacing an earlier one
   * with the same key, a quoted value with nothing left becoming null, and a
   * bare value (such as `NULL`) kept as text.
   */
  lemma DecodePairs(ps: seq<(Field, Field)>)
    requires Readable(ps)
    ensures Decode(PairsText(ps)) == Collect([], ps)
  {
    if ps == [] {
      assert PairsText(ps) == [];
    } else {
      assert Init == After([], 0);
      DecodeFrom([], ps);
    }
  }

  /**
   * What a quoted pair loses on the way back: every backslash of the key and
   * of the value, and an empty value, which comes back as null.
   */
  lemma QuotedPairLosses(k: string, v: string)
    requires Closable(k) && Closable(v)
    ensures var r := Decode(PairsText([(Quoted(k), Quoted(v))]));
            |r| == 1 && r[0].0 == DropBackslashes(k) && '\\' !in r[0].0 &&
            (r[0].1.None? <==> DropBackslashes(v) == []) &&
            (r[0].1.Some? ==> r[0].1.value == DropBackslashes(v) && '\\' !in r[0].1.value)
  {
    var ps := [(Quoted(k), Quoted(v))];
    DecodePairs(ps);
    assert ps[1..] == [];
  }

  /** Two characters to skip are skipped, whatever they are. */
  lemma SkipTwo(ret: Assoc<Option<string>>, x: char, y: char)
    ensures Run(After(ret, 2), [x, y]) == After(ret, 0)
  {
    assert [x, y][1..] == [y];
    assert [y][1..] == [];
    assert Step(After(ret, 2), x) == After(ret, 1);
    assert Step(After(ret, 1), y) == After(ret, 0);
    assert Run(After(ret, 1), [y]) == Run(After(ret, 0), []);
  }

  /** The two characters after a closing value quote are skipped, whatever they are. */
  lemma QuotedPairThenAny(ret: Assoc<Option<string>>, k: Field, t: string, x: char, y: char)
    requires KeyField(k) && Closable(t)
    ensures Run(After(ret, 0), PairText(k, Quoted(t)) + [x, y])
         == After(Put(ret, FieldKey(k), FieldValue(Quoted(t))), 0)
  {
    var head := FieldText(k) + "=>";
    var value := FieldText(Quoted(t));
    var next := Put(ret, FieldKey(k), FieldValue(Quoted(t)));
    assert PairText(k, Quoted(t)) + [x, y] == head + (value + [x, y]);
    RunConcat(After(ret, 0), head, value + [x, y]);
    KeyThenArrow(ret, k);
    var st := ValueStart(ret, KeyPart(k));
    RunConcat(st, value, [x, y]);
    QuotedValue(ret, KeyPart(k), t);
    assert Run(st, value) == After(next, 2);
    SkipTwo(next, x, y);
  }

  // ---------------------------------------------------------------------
  // The encoder

  /** `"key"=>"value"`, or `"key"=>NULL` for a null value, with `\` and `"` escaped. */
  function EncodePair(k: string, v: Option<string>): string
  {
    "\"" + Escape(k) + "\"=>" + (if v.None? then "NULL" else "\"" + Escape(v.value) + "\"")
  }

  /** The encoded pairs, in the map's order. */
  function EncodedPairs(m: Assoc<Option<string>>): (r: seq<string>)
    ensures |r| == |m|
  {
    seq(|m|, i requires 0 <= i < |m| => EncodePair(m[i].0, m[i].1))
  }

  /** _hstoreFromPhpHelper: the pairs joined by a bare `,`. */
  function HstoreLiteral(m: Assoc<Option<string>>): string
  {
    Join(",", EncodedPairs(m))
  }

  /** _hstoreFromPhpHelper as written: a loop collecting one formatted pair per entry, then implode. */
  method HstoreFromPhpHelper(m: Assoc<Option<string>>) returns (s: string)
    ensures s == HstoreLiteral(m)
  {
    var parts: seq<string> := [];
    for i := 0 to |m|
      invariant parts == EncodedPairs(m[..i])
    {
      var key := Replace('"', "\\\"", Replace('\\', "\\\\", m[i].0));
      EscapeByReplacements(m[i].0);
      var val: string;
      if m[i].1 == None {
        val := "NULL";
      } else {
        val := "\"" + Replace('"', "\\\"", Replace('\\', "\\\\", m[i].1.value)) + "\"";
        EscapeByReplacements(m[i].1.value);
      }
      parts := parts + ["\"" + key + "\"=>" + val];
      assert m[..i + 1][..i] == m[..i];
    }
    assert m[..|m|] == m;
    s := Join(",", parts);
  }

  /** How an encoded value is written: `NULL` bare, any other value quoted. */
  function EncodedValue(v: Option<string>): Field
  {
    if v.None? then Bare("NULL") else Quoted(v.value)
  }

  /** The fields of the encoded pairs. */
  function EncodedFields(m: Assoc<Option<string>>): (ps: seq<(Field, Field)>)
    ensures |ps| == |m|
  {
    seq(|m|, i requires 0 <= i < |m| => (Quoted(m[i].0), EncodedValue(m[i].1)))
  }

  /** Every encoded pair is a quoted key and a quoted value or the bare token `NULL`. */
  lemma EncodedPairFields(k: string, v: Option<string>)
    ensures EncodePair(k, v) == PairText(Quoted(k), EncodedValue(v))
  {
  }

  /** Neither the key nor a non-null value ends in a backslash. */
  predicate ClosableEntries(m: Assoc<Option<string>>)
  {
    forall i :: 0 <= i < |m| ==> Closable(m[i].0) && (m[i].1.Some? ==> Closable(m[i].1.value))
  }

  /**
   * The encoded pairs, separated by `, ` as PostgreSQL separates them, are
   * read back with backslashes dropped, a null value as the text "NULL" and
   * an empty value as null.
   */
  lemma ReadEncodedPairs(m: Assoc<Option<string>>)
    requires ClosableEntries(m)
    ensures Decode(Join(", ", EncodedPairs(m))) == Collect([], EncodedFields(m))
  {
    var ps := EncodedFields(m);
    assert Readable(ps) by {
      forall i | 0 <= i < |ps| ensures KeyField(ps[i].0) && ValueField(ps[i].1) {
        assert ps[i] == (Quoted(m[i].0), EncodedValue(m[i].1));
        assert "NULL"[0] == 'N';
      }
    }
    assert EncodedPairs(m) == seq(|ps|, i requires 0 <= i < |ps| => PairText(ps[i].0, ps[i].1)) by {
      forall i | 0 <= i < |ps| ensures EncodedPairs(m)[i] == PairText(ps[i].0, ps[i].1) {
        EncodedPairFields(m[i].0, m[i].1);
      }
    }
    DecodePairs(ps);
  }

  /** The encoder's output for `{a: "1", b: "2"}`. */
  lemma EncodeSample(m: Assoc<Option<string>>)
    requires m == [("a", Some("1")), ("b", Some("2"))]
    ensures HstoreLiteral(m) == "\"a\"=>\"1\",\"b\"=>\"2\""
  {
    EscapePlain("a");
    EscapePlain("1");
    EscapePlain("b");
    EscapePlain("2");
    var e := EncodedPairs(m);
    assert e[0] == "\"a\"=>\"1\"" && e[1] == "\"b\"=>\"2\"";
    assert e[1..] == ["\"b\"=>\"2\""];
    assert Join(",", e[1..]) == e[1];
    assert Join(",", e) == e[0] + "," + e[1];
  }

  /**
   * The decoder does not read back what the encoder writes: after the
   * closing quote of `"1"` it skips the `,` and the opening quote of the next
   * key, which is then read unquoted up to `=`.
   */
  lemma EncoderOutputNotReadBack(m: Assoc<Option<string>>)
    requires m == [("a", Some("1")), ("b", Some("2"))]
    ensures Decode(HstoreLiteral(m)) == [("a", Some("1")), ("b\"", Some("2"))]
    ensures Decode(HstoreLiteral(m)) != m
  {
    EncodeSample(m);
    EncodedSampleText(HstoreLiteral(m));
    assert BareText(KeyMode, "b\"");
    DecodeWithoutSpace(Quoted("a"), "1", Bare("b\""), Quoted("2"));
    ReplaceAbsent('\\', "", "a");
    ReplaceAbsent('\\', "", "1");
    ReplaceAbsent('\\', "", "2");
    assert |"b\""| == 2;
    PutTwo("a", Some("1"), "b\"", Some("2"));
    assert Decode(HstoreLiteral(m))[1].0 != m[1].0;
  }

  /** The encoder's output for `{a: "1", b: "2"}` as the decoder meets it. */
  lemma EncodedSampleText(s: string)
    requires s == "\"a\"=>\"1\",\"b\"=>\"2\""
    ensures s == PairText(Quoted("a"), Quoted("1")) + [',', '"'] + PairText(Bare("b\""), Quoted("2"))
  {
    EncodedPairTexts();
  }

  /** The two pairs of the encoder's sample as the decoder sees them. */
  lemma EncodedPairTexts()
    ensures PairText(Quoted("a"), Quoted("1")) == "\"a\"=>\"1\""
    ensures PairText(Bare("b\""), Quoted("2")) == "b\"=>\"2\""
  {
    EscapePlain("a");
    EscapePlain("1");
    EscapePlain("2");
  }

  /**
   * Two pairs separated by `,` alone: the character after the `,` is lost
   * along with it, and the second pair is read from the one after.
   */
  lemma DecodeWithoutSpace(k1: Field, t1: string, k2: Field, v2: Field)
    requires KeyField(k1) && Closable(t1) && KeyField(k2) && ValueField(v2)
    ensures Decode(PairText(k1, Quoted(t1)) + [',', '"'] + PairText(k2, v2))
         == Put(Put([], FieldKey(k1), FieldValue(Quoted(t1))), FieldKey(k2), FieldValue(v2))
  {
    var first := PairText(k1, Quoted(t1)) + [',', '"'];
    RunConcat(Init, first, PairText(k2, v2));
    assert Init == After([], 0);
    QuotedPairThenAny([], k1, t1, ',', '"');
    LastPair(Put([], FieldKey(k1), FieldValue(Quoted(t1))), k2, v2);
  }

  /** The fields of the example `"a"=>"1","b"=>NULL` as the decoder meets them. */
  lemma DocumentedSampleText(s: string)
    requires s == "\"a\"=>\"1\",\"b\"=>NULL"
    ensures s == PairText(Quoted("a"), Quoted("1")) + [',', '"'] + PairText(Bare("b\""), Bare("NULL"))
  {
    DocumentedPairTexts();
  }

  /** The two pairs of the documented sample as the decoder sees them. */
  lemma DocumentedPairTexts()
    ensures PairText(Quoted("a"), Quoted("1")) == "\"a\"=>\"1\""
    ensures PairText(Bare("b\""), Bare("NULL")) == "b\"=>NULL"
  {
    EscapePlain("a");
    EscapePlain("1");
  }

  /** Two puts of distinct keys into an empty map keep their order. */
  lemma PutTwo<V>(k1: string, v1: V, k2: string, v2: V)
    requires k1 != k2
    ensures Put(Put([], k1, v1), k2, v2) == [(k1, v1), (k2, v2)]
  {
    var m1 := Put([], k1, v1);
    assert m1 == [(k1, v1)];
    assert Keys(m1) == {k1} by { assert m1[0].0 == k1; }
  }

  /**
   * The example `"a"=>"1","b"=>NULL`: the second key is read as `b"` and the
   * value as the text "NULL".
   */
  lemma DecodeDocumentedSample(s: string)
    requires s == "\"a\"=>\"1\",\"b\"=>NULL"
    ensures Decode(s) == [("a", Some("1")), ("b\"", Some("NULL"))]
  {
    DocumentedSampleText(s);
    assert BareText(KeyMode, "b\"");
    assert BareText(ValueMode, "NULL");
    DecodeWithoutSpace(Quoted("a"), "1", Bare("b\""), Bare("NULL"));
    ReplaceAbsent('\\', "", "a");
    ReplaceAbsent('\\', "", "1");
    assert |"b\""| == 2;
    PutTwo("a", Some("1"), "b\"", Some("NULL"));
  }

  /** The pairs of PostgreSQL's own layout `"a"=>"1", "b"=>NULL`. */
  lemma PostgresSampleText(s: string)
    requires s == "\"a\"=>\"1\", \"b\"=>NULL"
    ensures s == PairsText([(Quoted("a"), Quoted("1")), (Quoted("b"), Bare("NULL"))])
  {
    SamplePairTexts();
    TwoPairsText(Quoted("a"), Quoted("1"), Quoted("b"), Bare("NULL"));
  }

  /** The two pairs of that sample, each on its own. */
  lemma SamplePairTexts()
    ensures PairText(Quoted("a"), Quoted("1")) == "\"a\"=>\"1\""
    ensures PairText(Quoted("b"), Bare("NULL")) == "\"b\"=>NULL"
  {
    EscapePlain("a");
    EscapePlain("1");
    EscapePlain("b");
  }

  /** Two pairs are written one after the other with `, ` between them. */
  lemma TwoPairsText(k1: Field, v1: Field, k2: Field, v2: Field)
    ensures PairsText([(k1, v1), (k2, v2)]) == PairText(k1, v1) + ", " + PairText(k2, v2)
  {
    var ps := [(k1, v1), (k2, v2)];
    var texts := seq(|ps|, i requires 0 <= i < |ps| => PairText(ps[i].0, ps[i].1));
    assert texts == [PairText(k1, v1), PairText(k2, v2)];
    assert texts[1..] == [PairText(k2, v2)];
    assert Join(", ", texts[1..]) == PairText(k2, v2);
    assert Join(", ", texts) == texts[0] + ", " + Join(", ", texts[1..]);
  }

  /** PostgreSQL's own layout, `"a"=>"1", "b"=>NULL`, read pair by pair. */
  lemma DecodePostgresSample(s: string)
    requires s == "\"a\"=>\"1\", \"b\"=>NULL"
    ensures Decode(s) == [("a", Some("1")), ("b", Some("NULL"))]
  {
    var ps := [(Quoted("a"), Quoted("1")), (Quoted("b"), Bare("NULL"))];
    PostgresSampleText(s);
    assert Readable(ps) by { assert "NULL"[0] == 'N'; }
    DecodePairs(ps);
    ReplaceAbsent('\\', "", "a");
    ReplaceAbsent('\\', "", "1");
    ReplaceAbsent('\\', "", "b");
    assert ps[1..][1..] == [];
    PutTwo("a", Some("1"), "b", Some("NULL"));
  }

  // ---------------------------------------------------------------------
  // hstoreToPhp

  /** What hstoreToPhp returns: one map, or a list of maps for an hstore array. */
  datatype Hstores = Single(pairs: Assoc<Option<string>>) | Many(maps: seq<Assoc<Option<string>>>)

  /** The first character is `{` and the last `}`. */
  predicate ArrayShaped(s: string)
  {
    |s| >= 1 && s[0] == '{' && s[|s| - 1] == '}'
  }

  /**
   * hstoreToPhp: text in braces is an array of hstores, split by the
   * server's `UNNEST` (the function `unnest`) and decoded element by
   * element, a null element as the empty text; any other text is one hstore.
   */
  function HstoreToPhp(s: string, unnest: (string, string) -> seq<Option<string>>): (r: Hstores)
    ensures r.Many? <==> ArrayShaped(s)
    ensures r.Single? ==> r.pairs == Decode(s)
    ensures r.Many? ==> |r.maps| == |unnest(s, "hstore[]")|
    ensures r.Many? ==> forall i :: 0 <= i < |r.maps| ==>
              r.maps[i] == (if unnest(s, "hstore[]")[i].Some? then Decode(unnest(s, "hstore[]")[i].value) else [])
  {
    if ArrayShaped(s) then
      assert Braced(s);
      assert NormalizeType("hstore") == "hstore[]";
      var items := ArrayToPhp(Some(s), "hstore", unnest).value;
      Many(seq(|items|, i requires 0 <= i < |items| => Decode(if items[i].Some? then items[i].value else "")))
    else Single(Decode(s))
  }
}
