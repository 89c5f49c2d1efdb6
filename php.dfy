// The PHP runtime primitives the library is written with, as pure functions:
// null beside a value, str_replace of one character, explode/implode,
// reading a list offset, the truth value of a string, and assignment into an
// ordered associative array.

module Php {

  /** A PHP value that may be null. */
  datatype Option<+T> = None | Some(value: T)

  /** `$list[$i]`: PHP yields null (with a notice) past the end of the list. */
  function At<T>(a: seq<T>, i: nat): Option<T>
  {
    if i < |a| then Some(a[i]) else None
  }

  /** The truth value of a string in `if ($s)`: only "" and "0" are false. */
  predicate Truthy(s: string)
  {
    s != "" && s != "0"
  }

  // ---------------------------------------------------------------------
  // str_replace with a one-character search string

  /** `str_replace(c, rep, s)` for a single character `c`. */
  function Replace(c: char, rep: string, s: string): (r: string)
    ensures c !in rep ==> c !in r
    decreases |s|
  {
    if s == [] then [] else (if s[0] == c then rep else [s[0]]) + Replace(c, rep, s[1..])
  }

  /** str_replace works character by character, so it distributes over concatenation. */
  lemma {:induction false} ReplaceConcat(c: char, rep: string, a: string, b: string)
    ensures Replace(c, rep, a + b) == Replace(c, rep, a) + Replace(c, rep, b)
    decreases |a|
  {
    if a == [] {
      assert a + b == b;
    } else {
      assert (a + b)[0] == a[0];
      assert (a + b)[1..] == a[1..] + b;
      ReplaceConcat(c, rep, a[1..], b);
    }
  }

  /** str_replace on a one-character string. */
  lemma ReplaceOne(c: char, rep: string, ch: char)
    ensures Replace(c, rep, [ch]) == if ch == c then rep else [ch]
  {
    assert [ch][1..] == [];
  }

  /** Replacing a character that does not occur leaves the string unchanged. */
  lemma {:induction false} ReplaceAbsent(c: char, rep: string, s: string)
    requires c !in s
    ensures Replace(c, rep, s) == s
    decreases |s|
  {
    if s != [] {
      assert s[0] != c;
      ReplaceAbsent(c, rep, s[1..]);
    }
  }

  // ---------------------------------------------------------------------
  // implode / explode

  /** `implode(d, parts)`. */
  function Join(d: string, parts: seq<string>): string
  {
    if |parts| == 0 then []
    else if |parts| == 1 then parts[0]
    else parts[0] + d + Join(d, parts[1..])
  }

  /** `d` occurs in `x` starting at offset `i`. */
  predicate OccursAt(d: string, x: string, i: nat)
  {
    i + |d| <= |x| && x[i..i + |d|] == d
  }

  /** `x` contains no occurrence of `d`. */
  predicate NoOccurrence(d: string, x: string)
  {
    forall i: nat :: i < |x| ==> !OccursAt(d, x, i)
  }

  /**
   * `explode(d, s)` for a non-empty delimiter: the text is scanned from the
   * left and cut at every occurrence of `d` that does not overlap an earlier
   * cut. An empty string explodes to one empty part.
   */
  function Explode(d: string, s: string): (parts: seq<string>)
    requires |d| > 0
    ensures |parts| >= 1
    ensures Join(d, parts) == s
    decreases |s|
  {
    if |s| < |d| then [s]
    else if s[..|d|] == d then
      var rest := Explode(d, s[|d|..]);
      assert s == d + s[|d|..];
      [[]] + rest
    else
      var rest := Explode(d, s[1..]);
      JoinExtendHead(d, [s[0]], rest);
      assert s == [s[0]] + s[1..];
      [[s[0]] + rest[0]] + rest[1..]
  }

  /** Prefixing the first part prefixes the joined text. */
  lemma JoinExtendHead(d: string, a: string, parts: seq<string>)
    requires |parts| >= 1
    ensures Join(d, [a + parts[0]] + parts[1..]) == a + Join(d, parts)
  {
    var q := [a + parts[0]] + parts[1..];
    if |parts| > 1 {
      assert q[1..] == parts[1..];
    }
  }

  /** A delimiter after a text free of its first character is the first cut. */
  lemma {:induction false} ExplodeCut(d: string, x: string, rest: string)
    requires |d| > 0 && d[0] !in x
    ensures Explode(d, x + d + rest) == [x] + Explode(d, rest)
    decreases |x|
  {
    var s := x + d + rest;
    if x == [] {
      assert s == d + rest;
      assert s[..|d|] == d;
      assert s[|d|..] == rest;
    } else {
      assert s[0] == x[0] && s[0] != d[0];
      assert s[..|d|][0] == s[0];
      assert s[1..] == x[1..] + d + rest;
      ExplodeCut(d, x[1..], rest);
      assert [x[0]] + x[1..] == x;
    }
  }

  /** A text with no occurrence of the delimiter explodes to itself. */
  lemma {:induction false} ExplodeWhole(d: string, x: string)
    requires |d| > 0 && NoOccurrence(d, x)
    ensures Explode(d, x) == [x]
    decreases |x|
  {
    if |x| >= |d| {
      assert !OccursAt(d, x, 0);
      assert x[..|d|] == x[0..|d|];
      forall i: nat | i < |x[1..]|
        ensures !OccursAt(d, x[1..], i)
      {
        assert !OccursAt(d, x, i + 1);
        if i + |d| <= |x[1..]| {
          assert x[1..][i..i + |d|] == x[i + 1..i + 1 + |d|];
        }
      }
      ExplodeWhole(d, x[1..]);
      assert [x[0]] + x[1..] == x;
    }
  }

  /**
   * explode undoes implode when no part but the last holds the delimiter's
   * first character and the last part holds no whole delimiter.
   */
  lemma {:induction false} ExplodeJoin(d: string, parts: seq<string>)
    requires |d| > 0 && |parts| >= 1
    requires forall i :: 0 <= i < |parts| - 1 ==> d[0] !in parts[i]
    requires NoOccurrence(d, parts[|parts| - 1])
    ensures Explode(d, Join(d, parts)) == parts
    decreases |parts|
  {
    if |parts| == 1 {
      ExplodeWhole(d, parts[0]);
    } else {
      ExplodeJoin(d, parts[1..]);
      ExplodeCut(d, parts[0], Join(d, parts[1..]));
      assert parts[0] + d + Join(d, parts[1..]) == Join(d, parts);
      assert [parts[0]] + parts[1..] == parts;
    }
  }

  /** For a one-character delimiter, "no occurrence" is "does not contain it". */
  lemma NoOccurrenceOfChar(c: char, x: string)
    requires c !in x
    ensures NoOccurrence([c], x)
  {
    forall i: nat | i < |x|
      ensures !OccursAt([c], x, i)
    {
      assert i + 1 <= |x| ==> x[i..i + 1] == [x[i]];
    }
  }

  /** A text free of the delimiter's first character holds no delimiter. */
  lemma NoOccurrenceOfHead(d: string, x: string)
    requires |d| > 0 && d[0] !in x
    ensures NoOccurrence(d, x)
  {
    forall i: nat | i < |x|
      ensures !OccursAt(d, x, i)
    {
      if i + |d| <= |x| {
        assert x[i..i + |d|][0] == x[i];
      }
    }
  }

  /** Appending one part to an implode appends the delimiter and the part. */
  lemma {:induction false} JoinSnoc(d: string, parts: seq<string>, p: string)
    requires |parts| >= 1
    ensures Join(d, parts + [p]) == Join(d, parts) + d + p
    decreases |parts|
  {
    var q := parts + [p];
    if |parts| == 1 {
      assert q[1..] == [p];
    } else {
      assert q[1..] == parts[1..] + [p];
      JoinSnoc(d, parts[1..], p);
    }
  }

  // ---------------------------------------------------------------------
  // Ordered associative arrays (PHP arrays with string keys)

  /** An ordered PHP array from string keys to values. */
  type Assoc<V> = seq<(string, V)>

  /** The keys of an ordered array. */
  function Keys<V>(a: Assoc<V>): set<string>
  {
    set i | 0 <= i < |a| :: a[i].0
  }

  /** `$a[$k]`, or null when the key is absent. */
  function Get<V>(a: Assoc<V>, k: string): (r: Option<V>)
    ensures r.Some? <==> k in Keys(a)
  {
    if a == [] then None
    else if a[0].0 == k then Some(a[0].1)
    else
      assert Keys(a) == {a[0].0} + Keys(a[1..]) by {
        forall x | x in Keys(a) ensures x in {a[0].0} + Keys(a[1..]) {
          var i :| 0 <= i < |a| && a[i].0 == x;
          if i > 0 { assert a[1..][i - 1] == a[i]; }
        }
      }
      Get(a[1..], k)
  }

  /**
   * `$a[$k] = $v`: an existing key keeps its position and takes the new
   * value; a new key is appended at the end.
   */
  function Put<V>(a: Assoc<V>, k: string, v: V): (r: Assoc<V>)
    ensures Keys(r) == Keys(a) + {k}
    ensures Get(r, k) == Some(v)
    ensures k !in Keys(a) ==> r == a + [(k, v)]
  {
    if a == [] then
      assert Keys([(k, v)]) == {k} by { assert [(k, v)][0].0 == k; }
      [(k, v)]
    else if a[0].0 == k then
      var r := [(k, v)] + a[1..];
      assert Keys(r) == Keys(a) by {
        forall x | x in Keys(a) ensures x in Keys(r) {
          var i :| 0 <= i < |a| && a[i].0 == x;
          assert r[i].0 == x;
        }
      }
      r
    else
      var tail := Put(a[1..], k, v);
      var r := [a[0]] + tail;
      assert r[1..] == tail && r[0] == a[0];
      KeysCons(a);
      KeysCons(r);
      r
  }

  /** Assigning one key leaves every other key's value as it was. */
  lemma {:induction false} PutOther<V>(a: Assoc<V>, k: string, v: V, j: string)
    requires j != k
    ensures Get(Put(a, k, v), j) == Get(a, j)
    decreases |a|
  {
    if a != [] && a[0].0 != k {
      PutOther(a[1..], k, v, j);
      assert Put(a, k, v)[1..] == Put(a[1..], k, v);
    }
  }

  /** The keys of a non-empty array: its first key and the keys of the rest. */
  lemma KeysCons<V>(a: Assoc<V>)
    requires a != []
    ensures Keys(a) == {a[0].0} + Keys(a[1..])
  {
    forall x | x in Keys(a) ensures x in {a[0].0} + Keys(a[1..]) {
      var i :| 0 <= i < |a| && a[i].0 == x;
      if i > 0 { assert a[1..][i - 1] == a[i]; }
    }
    forall x | x in Keys(a[1..]) ensures x in Keys(a) {
      var i :| 0 <= i < |a[1..]| && a[1..][i].0 == x;
      assert a[i + 1] == a[1..][i];
    }
  }
}
