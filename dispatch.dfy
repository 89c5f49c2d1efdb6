// The type-directed decoding of one result cell: the table from PostgreSQL
// type names to decoders, the decoder dispatch, the field descriptor that
// records whether a column holds an array, and the null short-cut.

module Dispatch {
  import opened Php
  import opened Geometry

  /** The decoders the table can name (`_transform_<name>`). */
  datatype Transform =
    | Hstore | Json | Binary | Boolean | Datetime | Float
    | GeoBox | GeoCircle | GeoLseg | GeoPath | GeoPoint | GeoPolygon
    | Integer | Str | Time

  /** The type transform table: `None` is a listed type that is left as text. */
  const Table: map<string, Option<Transform>> := map[
    "hstore" := Some(Hstore), "json" := Some(Json), "xml" := None,
    "bit" := Some(Binary), "bytea" := Some(Binary), "varbit" := Some(Binary),
    "bool" := Some(Boolean),
    "date" := Some(Datetime), "timestamp" := Some(Datetime), "timestamptz" := Some(Datetime),
    "float4" := Some(Float), "float8" := Some(Float), "money" := Some(Float), "numeric" := Some(Float),
    "box" := Some(GeoBox), "circle" := Some(GeoCircle), "lseg" := Some(GeoLseg), "line" := Some(GeoLseg),
    "path" := Some(GeoPath), "point" := Some(GeoPoint), "polygon" := Some(GeoPolygon),
    "int2" := Some(Integer), "int4" := Some(Integer), "int8" := Some(Integer),
    "cidr" := None, "inet" := None, "macaddr" := None,
    "uuid" := None,
    "daterange" := None, "int4range" := None, "int8range" := None, "interval" := None, "numrange" := None,
    "bpchar" := Some(Str), "text" := Some(Str), "varchar" := Some(Str),
    "tsquery" := None, "tsrange" := None, "tsvector" := None,
    "time" := Some(Time), "timetz" := Some(Time)
  ]

  /** The decoder `_transform_data` calls for a type name, if any. */
  function Decoder(tag: string): (t: Option<Transform>)
    ensures t.Some? <==> tag in Table && Table[tag].Some?
  {
    if tag in Table then Table[tag] else None
  }

  /** A cell before decoding: its text, or for an array column the elements the server returned. */
  datatype Raw = RawText(text: string) | RawList(items: seq<Option<string>>)

  /** A decoded cell. */
  datatype Value =
    | Null
    | Text(text: string)
    | List(items: seq<Option<string>>)
    | Texts(texts: seq<string>)
    | Map(pairs: Assoc<Option<string>>)
    | Maps(maps: seq<Assoc<Option<string>>>)
    | PointValue(point: Point)
    | SegmentValue(segment: Segment)
    | CircleValue(circle: Circle)
    | PathValue(path: Path)
    | PolygonValue(points: seq<Point>)
      /** What a PHP library conversion (json_decode, intval, …) makes of the raw value. */
    | Converted(decoder: Transform, raw: Raw)
      /** A decoder handed an array where PHP demands a string. */
    | TypeError(decoder: Transform)

  /** A raw value passed through without any decoding. */
  function AsValue(raw: Raw): Value
  {
    match raw
    case RawText(s) => Text(s)
    case RawList(xs) => List(xs)
  }

  /** `strval` of each element: null becomes the empty string. */
  function StrvalAll(xs: seq<Option<string>>): seq<string>
  {
    seq(|xs|, i requires 0 <= i < |xs| => if xs[i].Some? then xs[i].value else "")
  }

  /**
   * One decoder applied to a raw value. `each` stands for the server's
   * `EACH(…::hstore)` query, which turns one hstore text into its pairs; a
   * null element of an hstore array reaches it as the empty text.
   */
  function Apply(t: Transform, raw: Raw, each: string -> Assoc<Option<string>>): Value
  {
    match t
    case Hstore =>
      (match raw
       case RawText(s) => Map(each(s))
       case RawList(xs) => Maps(seq(|xs|, i requires 0 <= i < |xs| => each(if xs[i].Some? then xs[i].value else ""))))
    case Str =>
      (match raw
       case RawText(s) => Text(s)
       case RawList(xs) => Texts(StrvalAll(xs)))
    case Time => AsValue(raw)
    case Integer => Converted(Integer, raw)
    case Float => Converted(Float, raw)
    case Boolean => Converted(Boolean, raw)
    case Json => if raw.RawList? then TypeError(Json) else Converted(Json, raw)
    case Binary => if raw.RawList? then TypeError(Binary) else Converted(Binary, raw)
    case Datetime => if raw.RawList? then TypeError(Datetime) else Converted(Datetime, raw)
    case GeoBox => if raw.RawList? then TypeError(GeoBox) else SegmentValue(ParseBox(raw.text))
    case GeoCircle => if raw.RawList? then TypeError(GeoCircle) else CircleValue(ParseCircle(raw.text))
    case GeoLseg => if raw.RawList? then TypeError(GeoLseg) else SegmentValue(ParseLseg(raw.text))
    case GeoPath => if raw.RawList? then TypeError(GeoPath) else PathValue(ParsePath(raw.text))
    case GeoPoint => if raw.RawList? then TypeError(GeoPoint) else PointValue(ParsePoint(raw.text))
    case GeoPolygon => if raw.RawList? then TypeError(GeoPolygon) else PolygonValue(ParsePolygon(raw.text))
  }

  /** The decoders that leave a text unchanged. */
  predicate KeepsText(t: Option<Transform>)
  {
    t == None || t == Some(Str) || t == Some(Time)
  }

  /** The decoders that accept only a text and reject an array. */
  predicate TextOnly(t: Transform)
  {
    t in {Json, Binary, Datetime, GeoBox, GeoCircle, GeoLseg, GeoPath, GeoPoint, GeoPolygon}
  }

  /**
   * _transform_data: an unlisted type, or one listed without a decoder,
   * passes the value through; a listed decoder is applied once.
   */
  function TransformData(raw: Raw, tag: string, each: string -> Assoc<Option<string>>): (v: Value)
    ensures Decoder(tag).None? ==> v == AsValue(raw)
    ensures raw.RawText? ==> (v == Text(raw.text) <==> KeepsText(Decoder(tag)))
    ensures v.TypeError? <==> raw.RawList? && Decoder(tag).Some? && TextOnly(Decoder(tag).value)
    ensures v != Null
  {
    match Decoder(tag)
    case None => AsValue(raw)
    case Some(t) => Apply(t, raw, each)
  }

  /** `line` is read with the line-segment decoder. */
  lemma LineIsReadAsLseg(s: string, each: string -> Assoc<Option<string>>)
    ensures TransformData(RawText(s), "line", each) == TransformData(RawText(s), "lseg", each)
    ensures TransformData(RawText(s), "line", each) == SegmentValue(ParseLseg(s))
  {
    LineEntry();
    LsegEntry();
  }

  /** The table entry for `line`. */
  lemma LineEntry()
    ensures Decoder("line") == Some(GeoLseg)
  {
    assert "line" in Table;
  }

  /** The table entry for `lseg`. */
  lemma LsegEntry()
    ensures Decoder("lseg") == Some(GeoLseg)
  {
    assert "lseg" in Table;
  }

  // ---------------------------------------------------------------------
  // The field catalog

  /** The descriptor the catalog keeps for a column: `is-array` and `data-type`. */
  datatype Descriptor = Descriptor(isArray: bool, dataType: string)

  /** The type tag the driver reported, rebuilt from a descriptor. */
  function Tag(d: Descriptor): string
  {
    (if d.isArray then "_" else "") + d.dataType
  }

  /**
   * A leading `_` marks an array of the type named by the rest of the tag;
   * any other tag is kept whole.
   */
  function Describe(tag: string): (d: Descriptor)
    ensures d.isArray <==> |tag| > 0 && tag[0] == '_'
    ensures Tag(d) == tag
    ensures !d.isArray ==> d.dataType == tag
  {
    if |tag| > 0 && tag[0] == '_' then
      assert tag == "_" + tag[1..];
      Descriptor(true, tag[1..])
    else Descriptor(false, tag)
  }

  /** A column of a result as the driver describes it. */
  datatype Column = Column(name: string, tag: string)

  /** No two columns share a name. */
  predicate DistinctNames(cols: seq<Column>)
  {
    forall i, j :: 0 <= i < j < |cols| ==> cols[i].name != cols[j].name
  }

  /** The names of the columns. */
  function Names(cols: seq<Column>): set<string>
  {
    set i | 0 <= i < |cols| :: cols[i].name
  }

  /**
   * The catalog the first fetch builds: one descriptor per column name, in
   * column order; a later column of the same name replaces the descriptor.
   */
  function Catalog(cols: seq<Column>): Assoc<Descriptor>
  {
    if cols == [] then []
    else Put(Catalog(cols[..|cols| - 1]), cols[|cols| - 1].name, Describe(cols[|cols| - 1].tag))
  }

  /** Every column name, and no other, has a descriptor. */
  lemma {:induction false} CatalogKeys(cols: seq<Column>)
    ensures Keys(Catalog(cols)) == Names(cols)
    decreases |cols|
  {
    if cols != [] {
      var init := cols[..|cols| - 1];
      var last := cols[|cols| - 1];
      CatalogKeys(init);
      NamesOfLast(cols);
    }
  }

  /** The names of the columns are those before the last one, and the last one's. */
  lemma NamesOfLast(cols: seq<Column>)
    requires cols != []
    ensures Names(cols) == Names(cols[..|cols| - 1]) + {cols[|cols| - 1].name}
  {
    var n := |cols| - 1;
    forall x | x in Names(cols) ensures x in Names(cols[..n]) + {cols[n].name} {
      var i :| 0 <= i < |cols| && cols[i].name == x;
      if i < n { assert cols[..n][i] == cols[i]; }
    }
    forall x | x in Names(cols[..n]) ensures x in Names(cols) {
      var i :| 0 <= i < n && cols[..n][i].name == x;
      assert cols[i] == cols[..n][i];
    }
  }

  /** The descriptor of a name comes from the last column of that name. */
  lemma {:induction false} CatalogLookup(cols: seq<Column>, i: nat)
    requires i < |cols|
    requires forall j :: i < j < |cols| ==> cols[j].name != cols[i].name
    ensures Get(Catalog(cols), cols[i].name) == Some(Describe(cols[i].tag))
    decreases |cols|
  {
    if i < |cols| - 1 {
      var init := cols[..|cols| - 1];
      assert init[i] == cols[i];
      CatalogLookup(init, i);
      PutOther(Catalog(init), cols[|cols| - 1].name, Describe(cols[|cols| - 1].tag), cols[i].name);
    }
  }

  /** With distinct names the catalog holds one descriptor per column, in column order. */
  lemma {:induction false} CatalogOfDistinct(cols: seq<Column>)
    requires DistinctNames(cols)
    ensures |Catalog(cols)| == |cols|
    ensures forall i :: 0 <= i < |cols| ==> Catalog(cols)[i] == (cols[i].name, Describe(cols[i].tag))
    decreases |cols|
  {
    if cols != [] {
      var init := cols[..|cols| - 1];
      var last := cols[|cols| - 1];
      assert DistinctNames(init) by {
        forall i, j | 0 <= i < j < |init| ensures init[i].name != init[j].name {
          assert init[i] == cols[i] && init[j] == cols[j];
        }
      }
      CatalogOfDistinct(init);
      CatalogKeys(init);
      assert last.name !in Names(init) by {
        forall i | 0 <= i < |init| ensures init[i].name != last.name {
          assert init[i] == cols[i];
        }
      }
      assert Catalog(cols) == Catalog(init) + [(last.name, Describe(last.tag))];
      forall i | 0 <= i < |cols|
        ensures Catalog(cols)[i] == (cols[i].name, Describe(cols[i].tag))
      {
        if i < |init| { assert init[i] == cols[i]; }
      }
    }
  }

  /** The catalog loses nothing: the driver's type tags can be rebuilt from it. */
  lemma CatalogRestoresTags(cols: seq<Column>)
    requires DistinctNames(cols)
    ensures |Catalog(cols)| == |cols|
    ensures forall i :: 0 <= i < |cols| ==> Catalog(cols)[i].0 == cols[i].name && Tag(Catalog(cols)[i].1) == cols[i].tag
  {
    CatalogOfDistinct(cols);
  }

  // ---------------------------------------------------------------------
  // One cell

  /**
   * The decoding of one cell in a fetched row. A null cell is null whatever
   * its type. Otherwise an array column's text is expanded into its elements
   * by the server's `UNNEST` (the function `unnest`, given the text and the
   * array type, that is the element type followed by `[]`), and the result goes through _transform_data. A column with
   * no descriptor reads as a non-array of an unlisted type.
   */
  function DecodeCell(cell: Option<string>, d: Option<Descriptor>,
                      unnest: (string, string) -> seq<Option<string>>,
                      each: string -> Assoc<Option<string>>): (v: Value)
    ensures v == Null <==> cell == None
    ensures cell.Some? && d.None? ==> v == Text(cell.value)
    ensures cell.Some? && d.Some? && !d.value.isArray ==> v == TransformData(RawText(cell.value), d.value.dataType, each)
  {
    match cell
    case None => Null
    case Some(s) =>
      match d
      case None =>
        assert "" !in Table;
        TransformData(RawText(s), "", each)
      case Some(desc) =>
        var raw := if desc.isArray then RawList(unnest(s, desc.dataType + "[]")) else RawText(s);
        TransformData(raw, desc.dataType, each)
  }

  /** An array column is expanded once and then decoded as a list; only text-only decoders fail on it. */
  lemma ArrayCell(s: string, tag: string,
                  unnest: (string, string) -> seq<Option<string>>,
                  each: string -> Assoc<Option<string>>)
    requires |tag| > 0 && tag[0] == '_'
    ensures DecodeCell(Some(s), Some(Describe(tag)), unnest, each)
         == TransformData(RawList(unnest(s, tag[1..] + "[]")), tag[1..], each)
    ensures DecodeCell(Some(s), Some(Describe(tag)), unnest, each).TypeError?
        <==> Decoder(tag[1..]).Some? && TextOnly(Decoder(tag[1..]).value)
  {
  }
}
