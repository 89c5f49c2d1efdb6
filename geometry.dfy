// The decoders of PostgreSQL's geometric types. Each one strips the fixed
// punctuation of the format with str_replace and splits what is left on
// commas; coordinates stay text. Beside each parser stands a text it
// accepts for that shape, and a lemma that the parser reads it back.

module Geometry {
  import opened Php

  /** `array('x' => …, 'y' => …)`; a coordinate missing from the text is null. */
  datatype Point = Point(x: Option<string>, y: Option<string>)

  /** `array('from' => point, 'to' => point)`, the result for box, lseg and line. */
  datatype Segment = Segment(from: Point, to: Point)

  /** `array('x' => …, 'y' => …, 'radius' => …)`. */
  datatype Circle = Circle(x: Option<string>, y: Option<string>, radius: Option<string>)

  datatype PathKind = Open | Closed

  /** `array('path' => points, 'type' => 'open' | 'closed')`. */
  datatype Path = Path(kind: PathKind, path: seq<Point>)

  /** `str_replace('(', '', …)` then `str_replace(')', '', …)`. */
  function StripParens(s: string): string
  {
    Replace(')', "", Replace('(', "", s))
  }

  /** _transform_geo_point: `(x,y)`. */
  function ParsePoint(s: string): Point
  {
    var f := Explode(",", StripParens(s));
    Point(At(f, 0), At(f, 1))
  }

  /** _transform_geo_box: `((x1,y1),(x2,y2))`. */
  function ParseBox(s: string): Segment
  {
    var f := Explode(",", StripParens(s));
    Segment(Point(At(f, 0), At(f, 1)), Point(At(f, 2), At(f, 3)))
  }

  /** _transform_geo_circle: `<(x,y),r>`. */
  function ParseCircle(s: string): Circle
  {
    var f := Explode(",", StripParens(Replace('>', "", Replace('<', "", s))));
    Circle(At(f, 0), At(f, 1), At(f, 2))
  }

  /** _transform_geo_lseg (also used for line): `[(x1,y1),(x2,y2)]`. */
  function ParseLseg(s: string): Segment
  {
    var f := Explode(",", StripParens(Replace(']', "", Replace('[', "", s))));
    Segment(Point(At(f, 0), At(f, 1)), Point(At(f, 2), At(f, 3)))
  }

  /** One point per `),(`-separated part, each read as ParsePoint reads a point. */
  function PartsToPoints(parts: seq<string>): (r: seq<Point>)
    ensures |r| == |parts|
    ensures forall i :: 0 <= i < |parts| ==> r[i] == ParsePoint(parts[i])
  {
    seq(|parts|, i requires 0 <= i < |parts| => ParsePoint(parts[i]))
  }

  /**
   * _transform_geo_path: a leading `[` marks an open path, whose brackets are
   * removed; anything else is a closed path. The rest is cut at `),(`.
   */
  function ParsePath(s: string): Path
  {
    var open := |s| > 0 && s[0] == '[';
    var body := if open then Replace(']', "", Replace('[', "", s)) else s;
    Path(if open then Open else Closed, PartsToPoints(Explode("),(", body)))
  }

  /** _transform_geo_polygon: the text is cut at `),(` and each part read as a point. */
  function ParsePolygon(s: string): seq<Point>
  {
    PartsToPoints(Explode("),(", s))
  }

  /** The loop both path and polygon run: each part loses its parentheses and is cut at `,`. */
  method ReadPoints(parts: seq<string>) returns (points: seq<Point>)
    ensures points == PartsToPoints(parts)
  {
    points := [];
    for i := 0 to |parts|
      invariant |points| == i
      invariant forall j :: 0 <= j < i ==> points[j] == ParsePoint(parts[j])
    {
      var part := Replace('(', "", parts[i]);
      part := Replace(')', "", part);
      var xy := Explode(",", part);
      points := points + [Point(At(xy, 0), At(xy, 1))];
    }
  }

  /** _transform_geo_path as written: the kind from the first character, then the points. */
  method TransformGeoPath(value: string) returns (path: Path)
    ensures path == ParsePath(value)
  {
    var kind := Closed;
    var body := value;
    if |value| > 0 && value[0] == '[' {
      kind := Open;
      body := Replace('[', "", body);
      body := Replace(']', "", body);
    }
    var points := ReadPoints(Explode("),(", body));
    path := Path(kind, points);
  }

  /** _transform_geo_polygon as written: the text cut at `),(` and read into points. */
  method TransformGeoPolygon(value: string) returns (polygon: seq<Point>)
    ensures polygon == ParsePolygon(value)
  {
    polygon := ReadPoints(Explode("),(", value));
  }

  // ---------------------------------------------------------------------
  // A text each parser accepts

  /** A coordinate free of the formats' punctuation. */
  predicate Plain(t: string)
  {
    forall i :: 0 <= i < |t| ==> !Punctuation(t[i])
  }

  /** The characters the geometric formats use as punctuation. */
  predicate Punctuation(c: char)
  {
    c == '(' || c == ')' || c == '[' || c == ']' || c == '<' || c == '>' || c == ','
  }

  datatype Vertex = Vertex(x: string, y: string)

  predicate PlainVertex(v: Vertex)
  {
    Plain(v.x) && Plain(v.y)
  }

  function AsPoint(v: Vertex): Point
  {
    Point(Some(v.x), Some(v.y))
  }

  function Inner(v: Vertex): string
  {
    v.x + "," + v.y
  }

  /** `(x,y)` */
  function PointText(v: Vertex): string
  {
    "(" + Inner(v) + ")"
  }

  /** `((x1,y1),(x2,y2))`, the input form; PostgreSQL's output drops the outer parentheses. */
  function BoxText(a: Vertex, b: Vertex): string
  {
    "(" + PointText(a) + "," + PointText(b) + ")"
  }

  /** `[(x1,y1),(x2,y2)]` */
  function LsegText(a: Vertex, b: Vertex): string
  {
    "[" + PointText(a) + "," + PointText(b) + "]"
  }

  /** `<(x,y),r>` */
  function CircleText(c: Vertex, r: string): string
  {
    "<" + PointText(c) + "," + r + ">"
  }

  /** `(x1,y1),(x2,y2),…` */
  function PointsText(vs: seq<Vertex>): string
  {
    Join(",", seq(|vs|, i requires 0 <= i < |vs| => PointText(vs[i])))
  }

  /** `[(…),…]` for an open path, `((…),…)` for a closed one. */
  function PathText(kind: PathKind, vs: seq<Vertex>): string
  {
    if kind == Open then "[" + PointsText(vs) + "]" else "(" + PointsText(vs) + ")"
  }

  /** `((x1,y1),…)` */
  function PolygonText(vs: seq<Vertex>): string
  {
    "(" + PointsText(vs) + ")"
  }

  // ---------------------------------------------------------------------
  // Reading the texts back

  lemma PlainHasNo(t: string, c: char)
    requires Plain(t) && Punctuation(c)
    ensures c !in t
  {
    assert forall i :: 0 <= i < |t| ==> t[i] != c;
  }

  lemma InnerHasNo(v: Vertex, c: char)
    requires PlainVertex(v) && Punctuation(c) && c != ','
    ensures c !in Inner(v)
  {
    PlainHasNo(v.x, c);
    PlainHasNo(v.y, c);
  }

  /** Removing a character that the text lacks changes nothing. */
  lemma Keep(c: char, t: string)
    requires c !in t
    ensures Replace(c, "", t) == t
  {
    ReplaceAbsent(c, "", t);
  }

  /** Both coordinates come back from `x,y`. */
  lemma {:induction false} ExplodeInner(v: Vertex)
    requires PlainVertex(v)
    ensures Explode(",", Inner(v)) == [v.x, v.y]
  {
    PlainHasNo(v.x, ',');
    PlainHasNo(v.y, ',');
    NoOccurrenceOfChar(',', v.y);
    ExplodeWhole(",", v.y);
    ExplodeCut(",", v.x, v.y);
  }

  /** Parentheses around and inside `x,y` come off. */
  lemma {:induction false} StripParensAround(o: string, v: Vertex, c: string)
    requires PlainVertex(v)
    requires forall i :: 0 <= i < |o| ==> o[i] == '('
    requires forall i :: 0 <= i < |c| ==> c[i] == ')'
    ensures StripParens(o + Inner(v) + c) == Inner(v)
  {
    var t := Inner(v);
    InnerHasNo(v, '(');
    InnerHasNo(v, ')');
    assert '(' !in c by { assert forall i :: 0 <= i < |c| ==> c[i] != '('; }
    calc {
      Replace('(', "", o + t + c);
      { ReplaceConcat('(', "", o + t, c); }
      Replace('(', "", o + t) + Replace('(', "", c);
      { ReplaceConcat('(', "", o, t); }
      Replace('(', "", o) + Replace('(', "", t) + Replace('(', "", c);
      { OnlyCharRemoved('(', o); Keep('(', t); Keep('(', c); }
      [] + t + c;
      t + c;
    }
    calc {
      Replace(')', "", t + c);
      { ReplaceConcat(')', "", t, c); }
      Replace(')', "", t) + Replace(')', "", c);
      { Keep(')', t); OnlyCharRemoved(')', c); }
      t + [];
      t;
    }
  }

  lemma {:induction false} OnlyCharRemoved(ch: char, s: string)
    requires forall i :: 0 <= i < |s| ==> s[i] == ch
    ensures Replace(ch, "", s) == []
    decreases |s|
  {
    if s != [] {
      OnlyCharRemoved(ch, s[1..]);
    }
  }

  /** `(x,y)` reads back as the point. */
  lemma PointRoundTrip(v: Vertex)
    requires PlainVertex(v)
    ensures ParsePoint(PointText(v)) == AsPoint(v)
  {
    StripParensAround("(", v, ")");
    ExplodeInner(v);
  }

  /** The four numbers of two points, comma-separated, split back into four fields. */
  lemma {:induction false} ExplodeTwoInners(a: Vertex, b: Vertex)
    requires PlainVertex(a) && PlainVertex(b)
    ensures Explode(",", Inner(a) + "," + Inner(b)) == [a.x, a.y, b.x, b.y]
  {
    PlainHasNo(a.x, ',');
    PlainHasNo(a.y, ',');
    var tail := a.y + "," + Inner(b);
    assert Inner(a) + "," + Inner(b) == a.x + "," + tail;
    ExplodeCut(",", a.x, tail);
    ExplodeCut(",", a.y, Inner(b));
    ExplodeInner(b);
    assert Explode(",", tail) == [a.y, b.x, b.y];
  }

  /** The parentheses come off the text of two points, with or without outer ones. */
  lemma {:induction false} StripTwoPoints(a: Vertex, b: Vertex)
    requires PlainVertex(a) && PlainVertex(b)
    ensures StripParens("(" + PointText(a) + "," + PointText(b) + ")") == Inner(a) + "," + Inner(b)
    ensures StripParens(PointText(a) + "," + PointText(b)) == Inner(a) + "," + Inner(b)
  {
    InnerHasNo(a, '(');
    InnerHasNo(a, ')');
    InnerHasNo(b, '(');
    InnerHasNo(b, ')');
    var two := PointText(a) + "," + PointText(b);
    OpensOfTwo(Inner(a), Inner(b));
    ClosesOfTwo(Inner(a), Inner(b));
    OuterParens(two);
    assert "(" + PointText(a) + "," + PointText(b) + ")" == "(" + two + ")";
  }

  /** One more pair of parentheses around a text makes no difference once they are stripped. */
  lemma OuterParens(t: string)
    ensures StripParens("(" + t + ")") == StripParens(t)
  {
    var once := Replace('(', "", t);
    assert Replace('(', "", "(" + t + ")") == once + ")" by {
      ReplaceConcat('(', "", "(" + t, ")");
      ReplaceConcat('(', "", "(", t);
      ReplaceOne('(', "", '(');
      ReplaceOne('(', "", ')');
    }
    ReplaceConcat(')', "", once, ")");
    ReplaceOne(')', "", ')');
  }

  /** Removing `(` from `(ia),(ib)` leaves each closing parenthesis. */
  lemma OpensOfTwo(ia: string, ib: string)
    requires '(' !in ia && ')' !in ia && '(' !in ib && ')' !in ib
    ensures Replace('(', "", ("(" + ia + ")") + "," + ("(" + ib + ")")) == (ia + ")") + "," + (ib + ")")
  {
    var pa, pb := "(" + ia + ")", "(" + ib + ")";
    ReplaceConcat('(', "", pa + ",", pb);
    ReplaceConcat('(', "", pa, ",");
    RemoveOpen(ia);
    RemoveOpen(ib);
    ReplaceOne('(', "", ',');
  }

  /** Removing `)` from `ia),ib)` leaves `ia,ib`. */
  lemma ClosesOfTwo(ia: string, ib: string)
    requires ')' !in ia && ')' !in ib
    ensures Replace(')', "", (ia + ")") + "," + (ib + ")")) == ia + "," + ib
  {
    ReplaceConcat(')', "", (ia + ")") + ",", ib + ")");
    ReplaceConcat(')', "", ia + ")", ",");
    RemoveClose(ia);
    RemoveClose(ib);
    ReplaceOne(')', "", ',');
  }

  lemma RemoveOpen(t: string)
    requires '(' !in t && ')' !in t
    ensures Replace('(', "", "(" + t + ")") == t + ")"
  {
    assert Replace('(', "", "(" + t) == t by {
      ReplaceConcat('(', "", "(", t);
      ReplaceOne('(', "", '(');
      Keep('(', t);
      assert [] + t == t;
    }
    ReplaceConcat('(', "", "(" + t, ")");
    ReplaceOne('(', "", ')');
  }

  lemma RemoveClose(t: string)
    requires ')' !in t
    ensures Replace(')', "", t + ")") == t
  {
    ReplaceConcat(')', "", t, ")");
    ReplaceOne(')', "", ')');
    Keep(')', t);
    assert t + [] == t;
  }

  /** Removing a bracket pair around a text that holds no brackets. */
  lemma RemoveAround(open: char, close: char, t: string)
    requires open != close && open !in t && close !in t
    ensures Replace(close, "", Replace(open, "", [open] + t + [close])) == t
  {
    ReplaceConcat(open, "", [open] + t, [close]);
    ReplaceConcat(open, "", [open], t);
    ReplaceOne(open, "", open);
    ReplaceOne(open, "", close);
    Keep(open, t);
    assert Replace(open, "", [open] + t + [close]) == t + [close];
    ReplaceConcat(close, "", t, [close]);
    ReplaceOne(close, "", close);
    Keep(close, t);
  }

  /** The box text reads back as the two corners, in order, with or without outer parentheses. */
  lemma BoxRoundTrip(a: Vertex, b: Vertex)
    requires PlainVertex(a) && PlainVertex(b)
    ensures ParseBox(BoxText(a, b)) == Segment(AsPoint(a), AsPoint(b))
    ensures ParseBox(PointText(a) + "," + PointText(b)) == Segment(AsPoint(a), AsPoint(b))
  {
    StripTwoPoints(a, b);
    ExplodeTwoInners(a, b);
  }

  /** The segment text reads back as its two end points, in order. */
  lemma LsegRoundTrip(a: Vertex, b: Vertex)
    requires PlainVertex(a) && PlainVertex(b)
    ensures ParseLseg(LsegText(a, b)) == Segment(AsPoint(a), AsPoint(b))
  {
    var mid := PointText(a) + "," + PointText(b);
    InnerHasNo(a, '[');
    InnerHasNo(a, ']');
    InnerHasNo(b, '[');
    InnerHasNo(b, ']');
    assert '[' !in mid && ']' !in mid;
    assert LsegText(a, b) == ['['] + mid + [']'];
    RemoveAround('[', ']', mid);
    StripTwoPoints(a, b);
    ExplodeTwoInners(a, b);
  }

  /** The punctuation comes off a circle text, leaving `x,y,r`. */
  lemma CircleStrip(c: Vertex, r: string)
    requires PlainVertex(c) && Plain(r)
    ensures StripParens(Replace('>', "", Replace('<', "", CircleText(c, r)))) == Inner(c) + "," + r
  {
    var ic := Inner(c);
    InnerHasNo(c, '<');
    InnerHasNo(c, '>');
    InnerHasNo(c, '(');
    InnerHasNo(c, ')');
    PlainHasNo(r, '<');
    PlainHasNo(r, '>');
    PlainHasNo(r, '(');
    PlainHasNo(r, ')');
    PlainHasNo(r, ',');
    var tail := "," + r;
    assert '(' !in tail && ')' !in tail && '<' !in tail && '>' !in tail;
    var mid := PointText(c) + tail;
    assert '<' !in mid && '>' !in mid;
    assert CircleText(c, r) == ['<'] + mid + ['>'];
    RemoveAround('<', '>', mid);
    ReplaceConcat('(', "", PointText(c), tail);
    RemoveOpen(ic);
    Keep('(', tail);
    assert Replace('(', "", mid) == (ic + ")") + tail;
    ReplaceConcat(')', "", ic + ")", tail);
    RemoveClose(ic);
    Keep(')', tail);
  }

  /** `x,y,r` splits back into its three fields. */
  lemma {:induction false} ExplodeThree(c: Vertex, r: string)
    requires PlainVertex(c) && Plain(r)
    ensures Explode(",", Inner(c) + "," + r) == [c.x, c.y, r]
  {
    PlainHasNo(c.x, ',');
    PlainHasNo(c.y, ',');
    PlainHasNo(r, ',');
    NoOccurrenceOfChar(',', r);
    ExplodeWhole(",", r);
    ExplodeCut(",", c.y, r);
    ExplodeCut(",", c.x, c.y + "," + r);
    assert Inner(c) + "," + r == c.x + "," + (c.y + "," + r);
  }

  /** The circle text reads back as centre and radius. */
  lemma CircleRoundTrip(c: Vertex, r: string)
    requires PlainVertex(c) && Plain(r)
    ensures ParseCircle(CircleText(c, r)) == Circle(Some(c.x), Some(c.y), Some(r))
  {
    CircleStrip(c, r);
    ExplodeThree(c, r);
  }

  /** The inner texts of the vertices, joined by `),(`. */
  function Inners(vs: seq<Vertex>): (r: seq<string>)
    ensures |r| == |vs|
  {
    seq(|vs|, i requires 0 <= i < |vs| => Inner(vs[i]))
  }

  /** `(x1,y1),(x2,y2)` is `(` + the inner texts joined by `),(` + `)`. */
  lemma {:induction false} PointsTextAsInners(vs: seq<Vertex>)
    requires |vs| >= 1
    ensures PointsText(vs) == "(" + Join("),(", Inners(vs)) + ")"
    decreases |vs|
  {
    var texts := seq(|vs|, i requires 0 <= i < |vs| => PointText(vs[i]));
    if |vs| > 1 {
      PointsTextAsInners(vs[1..]);
      assert texts[1..] == seq(|vs[1..]|, i requires 0 <= i < |vs[1..]| => PointText(vs[1..][i]));
      assert Inners(vs)[1..] == Inners(vs[1..]);
      assert PointsText(vs) == PointText(vs[0]) + "," + PointsText(vs[1..]);
    }
  }

  /** Joining and then decorating the first and last part. */
  lemma {:induction false} JoinDecorated(d: string, o: string, parts: seq<string>, c: string)
    requires |parts| >= 1
    ensures o + Join(d, parts) + c == Join(d, Decorate(o, parts, c))
    decreases |parts|
  {
    var q := Decorate(o, parts, c);
    if |parts| == 1 {
      assert q == [o + parts[0] + c];
      assert Join(d, q) == q[0];
      assert Join(d, parts) == parts[0];
    } else {
      var rest := Join(d, parts[1..]);
      JoinDecorated(d, "", parts[1..], c);
      assert q == [o + parts[0]] + Decorate("", parts[1..], c);
      assert q[1..] == Decorate("", parts[1..], c);
      assert Join(d, q[1..]) == "" + rest + c;
      assert Join(d, q) == q[0] + d + Join(d, q[1..]);
      assert Join(d, parts) == parts[0] + d + rest;
      assert o + (parts[0] + d + rest) + c == (o + parts[0]) + d + ("" + rest + c);
    }
  }

  /** The parts with `o` before the first and `c` after the last. */
  function Decorate(o: string, parts: seq<string>, c: string): (r: seq<string>)
    requires |parts| >= 1
    ensures |r| == |parts|
    ensures r[0] == o + parts[0] + (if |parts| == 1 then c else [])
    ensures |parts| > 1 ==> r[|parts| - 1] == parts[|parts| - 1] + c
    ensures forall i :: 0 < i < |parts| - 1 ==> r[i] == parts[i]
    decreases |parts|
  {
    if |parts| == 1 then [o + parts[0] + c]
    else [o + parts[0]] + Decorate("", parts[1..], c)
  }

  /** The last decorated part: `c` after the last part, and `o` before it too when it is the only one. */
  lemma DecoratedLast(o: string, parts: seq<string>, c: string)
    requires |parts| >= 1
    ensures Decorate(o, parts, c)[|parts| - 1] == (if |parts| == 1 then o else []) + parts[|parts| - 1] + c
  {
    if |parts| > 1 {
      assert [] + parts[|parts| - 1] == parts[|parts| - 1];
    }
  }

  /** Part `i` after decoration: `o` before it when it is the first, `c` after it when it is the last. */
  lemma DecoratedPart(o: string, parts: seq<string>, c: string, i: nat)
    requires i < |parts|
    ensures Decorate(o, parts, c)[i]
         == (if i == 0 then o else []) + parts[i] + (if i == |parts| - 1 then c else [])
  {
    var r := Decorate(o, parts, c);
    if i == 0 && |parts| > 1 {
      assert o + parts[0] + [] == o + parts[0];
    } else if 0 < i < |parts| - 1 {
      assert [] + parts[i] + [] == parts[i];
    } else if i > 0 {
      assert [] + parts[i] + c == parts[i] + c;
    }
  }

  /** The opening parentheses `o` before a first part that holds none. */
  lemma HeadHasNoClose(o: string, t: string)
    requires forall i :: 0 <= i < |o| ==> o[i] == '('
    requires ')' !in t
    ensures ')' !in o + t
  {
    assert forall k :: 0 <= k < |o + t| ==> (o + t)[k] != ')';
  }

  /** The `),(`-separated parts of a list of points: each point's `x,y`, decorated at the ends. */
  lemma {:induction false} CutPoints(o: string, vs: seq<Vertex>, c: string)
    requires |vs| >= 1 && forall i :: 0 <= i < |vs| ==> PlainVertex(vs[i])
    requires forall i :: 0 <= i < |o| ==> o[i] == '('
    requires forall i :: 0 <= i < |c| ==> c[i] == ')'
    ensures Explode("),(", o + PointsText(vs) + c) == Decorate(o + "(", Inners(vs), ")" + c)
  {
    PointsTextAsInners(vs);
    var ins := Inners(vs);
    var o', c' := o + "(", ")" + c;
    assert forall i :: 0 <= i < |o'| ==> o'[i] == '(';
    assert forall i :: 0 <= i < |c'| ==> c'[i] == ')';
    assert o + PointsText(vs) + c == o' + Join("),(", ins) + c';
    var parts := Decorate(o', ins, c');
    JoinDecorated("),(", o', ins, c');
    DecoratedHeadsHaveNoClose(o', vs, c');
    LastDecoratedHasNoCut(o', vs, c');
    ExplodeJoin("),(", parts);
  }

  /** Every decorated part but the last holds no closing parenthesis. */
  lemma DecoratedHeadsHaveNoClose(o: string, vs: seq<Vertex>, c: string)
    requires |vs| >= 1 && forall i :: 0 <= i < |vs| ==> PlainVertex(vs[i])
    requires forall i :: 0 <= i < |o| ==> o[i] == '('
    ensures forall i :: 0 <= i < |Decorate(o, Inners(vs), c)| - 1 ==> "),("[0] !in Decorate(o, Inners(vs), c)[i]
  {
    var ins := Inners(vs);
    var parts := Decorate(o, ins, c);
    assert "),("[0] == ')';
    forall i | 0 <= i < |ins|
      ensures ')' !in ins[i]
    {
      InnerHasNo(vs[i], ')');
    }
    forall i | 0 <= i < |parts| - 1
      ensures ')' !in parts[i]
    {
      if i == 0 {
        HeadHasNoClose(o, ins[0]);
      }
    }
  }

  /** The last decorated part holds no whole `),(`. */
  lemma LastDecoratedHasNoCut(o: string, vs: seq<Vertex>, c: string)
    requires |vs| >= 1 && PlainVertex(vs[|vs| - 1])
    requires forall i :: 0 <= i < |o| ==> o[i] == '('
    requires forall i :: 0 <= i < |c| ==> c[i] == ')'
    ensures NoOccurrence("),(", Decorate(o, Inners(vs), c)[|Decorate(o, Inners(vs), c)| - 1])
  {
    var ins := Inners(vs);
    assert ins[|ins| - 1] == Inner(vs[|vs| - 1]);
    InnerHasNo(vs[|vs| - 1], ')');
    LastPartHasNoCut(o, ins[|ins| - 1], c, |ins| == 1);
    DecoratedLast(o, ins, c);
  }

  /** Each decorated part reads back as its point. */
  lemma DecoratedPoints(o: string, vs: seq<Vertex>, c: string)
    requires |vs| >= 1 && forall i :: 0 <= i < |vs| ==> PlainVertex(vs[i])
    requires forall i :: 0 <= i < |o| ==> o[i] == '('
    requires forall i :: 0 <= i < |c| ==> c[i] == ')'
    ensures PartsToPoints(Decorate(o, Inners(vs), c))
         == seq(|vs|, i requires 0 <= i < |vs| => AsPoint(vs[i]))
  {
    var got := PartsToPoints(Decorate(o, Inners(vs), c));
    forall i | 0 <= i < |vs|
      ensures got[i] == AsPoint(vs[i])
    {
      DecoratedPointAt(o, vs, c, i);
    }
  }

  /** Decorated part `i` reads back as point `i`. */
  lemma DecoratedPointAt(o: string, vs: seq<Vertex>, c: string, i: nat)
    requires i < |vs| && PlainVertex(vs[i])
    requires forall k :: 0 <= k < |o| ==> o[k] == '('
    requires forall k :: 0 <= k < |c| ==> c[k] == ')'
    ensures PartsToPoints(Decorate(o, Inners(vs), c))[i] == AsPoint(vs[i])
  {
    var pre := if i == 0 then o else [];
    var post := if i == |vs| - 1 then c else [];
    DecoratedPart(o, Inners(vs), c, i);
    StripParensAround(pre, vs[i], post);
    ExplodeInner(vs[i]);
  }

  /**
   * The parts of a list of points, as the path and polygon decoders cut them,
   * each come back as their point: `o` and `c` are the opening and closing
   * parentheses around the list.
   */
  lemma VerticesRoundTrip(o: string, vs: seq<Vertex>, c: string)
    requires |vs| >= 1 && forall i :: 0 <= i < |vs| ==> PlainVertex(vs[i])
    requires forall i :: 0 <= i < |o| ==> o[i] == '('
    requires forall i :: 0 <= i < |c| ==> c[i] == ')'
    ensures PartsToPoints(Explode("),(", o + PointsText(vs) + c))
         == seq(|vs|, i requires 0 <= i < |vs| => AsPoint(vs[i]))
  {
    var o', c' := o + "(", ")" + c;
    assert forall i :: 0 <= i < |o'| ==> o'[i] == '(';
    assert forall i :: 0 <= i < |c'| ==> c'[i] == ')';
    var parts := Explode("),(", o + PointsText(vs) + c);
    CutPoints(o, vs, c);
    assert parts == Decorate(o', Inners(vs), c');
    DecoratedPoints(o', vs, c');
  }

  /** The last part holds no whole `),(`: its `)` characters all come at the end. */
  lemma LastPartHasNoCut(o: string, t: string, c: string, first: bool)
    requires forall i :: 0 <= i < |o| ==> o[i] == '('
    requires forall i :: 0 <= i < |c| ==> c[i] == ')'
    requires ')' !in t
    ensures NoOccurrence("),(", (if first then o else []) + t + c)
  {
    var pre := if first then o else [];
    var x := pre + t + c;
    var p := |pre + t|;
    assert forall k :: 0 <= k < |pre| ==> x[k] == pre[k] && pre[k] == '(';
    assert forall k :: |pre| <= k < p ==> x[k] == t[k - |pre|];
    assert forall k :: p <= k < |x| ==> x[k] == c[k - p];
    forall i: nat | i < |x|
      ensures !OccursAt("),(", x, i)
    {
      if i + 3 <= |x| {
        assert x[i..i + 3][0] == x[i] && x[i..i + 3][1] == x[i + 1];
        if i < p {
          assert x[i] != ')';
        } else {
          assert x[i + 1] == ')';
        }
      }
    }
  }

  /** The text of a list of points holds no square bracket. */
  lemma PointsTextHasNoBrackets(vs: seq<Vertex>)
    requires |vs| >= 1 && forall i :: 0 <= i < |vs| ==> PlainVertex(vs[i])
    ensures '[' !in PointsText(vs) && ']' !in PointsText(vs)
  {
    PointsTextAsInners(vs);
    forall i | 0 <= i < |vs| ensures '[' !in Inners(vs)[i] && ']' !in Inners(vs)[i] {
      InnerHasNo(vs[i], '[');
      InnerHasNo(vs[i], ']');
    }
    JoinAvoids("),(", Inners(vs), '[');
    JoinAvoids("),(", Inners(vs), ']');
  }

  /** A path text reads back as its kind and its points, in order. */
  lemma PathRoundTrip(kind: PathKind, vs: seq<Vertex>)
    requires |vs| >= 1 && forall i :: 0 <= i < |vs| ==> PlainVertex(vs[i])
    ensures ParsePath(PathText(kind, vs))
         == Path(kind, seq(|vs|, i requires 0 <= i < |vs| => AsPoint(vs[i])))
  {
    var pts := PointsText(vs);
    if kind == Open {
      PointsTextHasNoBrackets(vs);
      assert PathText(kind, vs) == ['['] + pts + [']'];
      RemoveAround('[', ']', pts);
      VerticesRoundTrip("", vs, "");
      assert "" + pts + "" == pts;
    } else {
      assert PathText(kind, vs) == "(" + pts + ")";
      VerticesRoundTrip("(", vs, ")");
    }
  }

  /** A polygon text reads back as its vertices, in order. */
  lemma PolygonRoundTrip(vs: seq<Vertex>)
    requires |vs| >= 1 && forall i :: 0 <= i < |vs| ==> PlainVertex(vs[i])
    ensures ParsePolygon(PolygonText(vs)) == seq(|vs|, i requires 0 <= i < |vs| => AsPoint(vs[i]))
  {
    VerticesRoundTrip("(", vs, ")");
  }

  /** A character in neither the delimiter nor any part is not in the joined text. */
  lemma {:induction false} JoinAvoids(d: string, parts: seq<string>, ch: char)
    requires ch !in d && forall i :: 0 <= i < |parts| ==> ch !in parts[i]
    ensures ch !in Join(d, parts)
    decreases |parts|
  {
    if |parts| > 1 {
      JoinAvoids(d, parts[1..], ch);
    }
  }

  /** The path decoder decides the kind from the first character alone. */
  lemma PathKindFromFirstChar(s: string)
    ensures ParsePath(s).kind == Open <==> |s| > 0 && s[0] == '['
  {
  }

  /** The texts of the sample points `(1,2)` and `(3,4)`. */
  lemma SamplePointTexts()
    ensures PlainVertex(Vertex("1", "2")) && PlainVertex(Vertex("3", "4"))
    ensures PointText(Vertex("1", "2")) == "(1,2)" && PointText(Vertex("3", "4")) == "(3,4)"
  {
  }

  /** The point decoder on the sample text of its format. */
  lemma PointExample()
    ensures ParsePoint("(1,2)") == Point(Some("1"), Some("2"))
  {
    SamplePointTexts();
    PointRoundTrip(Vertex("1", "2"));
  }

  /** The box decoder on the sample text of its format. */
  lemma BoxExample()
    ensures ParseBox("((1,2),(3,4))") == Segment(Point(Some("1"), Some("2")), Point(Some("3"), Some("4")))
  {
    var p, q := Vertex("1", "2"), Vertex("3", "4");
    SamplePointTexts();
    BoxRoundTrip(p, q);
    assert BoxText(p, q) == "((1,2),(3,4))";
  }

  /** The segment decoder on the sample text of its format. */
  lemma LsegExample()
    ensures ParseLseg("[(1,2),(3,4)]") == Segment(Point(Some("1"), Some("2")), Point(Some("3"), Some("4")))
  {
    var p, q := Vertex("1", "2"), Vertex("3", "4");
    SamplePointTexts();
    LsegRoundTrip(p, q);
    assert LsegText(p, q) == "[(1,2),(3,4)]";
  }

  /** The circle decoder on the sample text of its format. */
  lemma CircleExample()
    ensures ParseCircle("<(1,2),3>") == Circle(Some("1"), Some("2"), Some("3"))
  {
    var p := Vertex("1", "2");
    assert PlainVertex(p) && Plain("3");
    CircleRoundTrip(p, "3");
    assert CircleText(p, "3") == "<(1,2),3>";
  }

  /** The text of two points. */
  lemma TwoPointsText(p: Vertex, q: Vertex)
    ensures PointsText([p, q]) == PointText(p) + "," + PointText(q)
  {
    var vs := [p, q];
    var texts := seq(|vs|, i requires 0 <= i < |vs| => PointText(vs[i]));
    assert texts[0] == PointText(p) && texts[1..] == [PointText(q)];
    assert Join(",", texts[1..]) == PointText(q);
    assert PointsText(vs) == Join(",", texts);
  }

  /** The text of an open two-point path. */
  lemma PathExampleText()
    ensures PathText(Open, [Vertex("1", "2"), Vertex("3", "4")]) == "[(1,2),(3,4)]"
  {
    var p, q := Vertex("1", "2"), Vertex("3", "4");
    TwoPointsText(p, q);
    assert PointText(p) == "(1,2)" && PointText(q) == "(3,4)";
  }

  /** The path decoder on an open two-point path. */
  lemma PathExample()
    ensures ParsePath("[(1,2),(3,4)]") == Path(Open, [Point(Some("1"), Some("2")), Point(Some("3"), Some("4"))])
  {
    var p, q := Vertex("1", "2"), Vertex("3", "4");
    var vs := [p, q];
    assert PlainVertex(p) && PlainVertex(q);
    PathExampleText();
    PathRoundTrip(Open, vs);
    var pts := seq(|vs|, i requires 0 <= i < |vs| => AsPoint(vs[i]));
    assert pts == [AsPoint(p), AsPoint(q)];
  }
}
