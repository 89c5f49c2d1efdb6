// PHPG's connection table (`$GLOBALS['PHPG']`) and the constructor's rules
// for it: reuse a connection by alias, or build a connection string, connect
// and register the new connection under a fresh alias.

module Registry {
  import opened Php

  /** What the constructor is given as connection parameters. */
  datatype Params =
    | ConnText(text: string)                        // passed to pg_connect as it is
    | ConnFields(fields: Assoc<Option<string>>)     // an array of named settings
    | OtherType(typeName: string)                   // any other PHP type, by gettype's name

  /** How a constructor call ends: with a connection, or with the exception it throws. */
  datatype Outcome =
    | Reused
    | Created
    | AliasNotFound
    | InvalidParams(typeName: string)
    | AliasExists
    | ConnectFailed

  /** The settings the connection-string builder looks for, in the order it writes them. */
  const Keywords: seq<string> := ["host", "port", "dbname", "user", "password", "options"]

  /** `isset($params[$key])`: present and not null. */
  function Setting(a: Assoc<Option<string>>, key: string): (r: Option<string>)
    ensures r.Some? <==> Get(a, key).Some? && Get(a, key).value.Some?
  {
    match Get(a, key)
    case None => None
    case Some(v) => v
  }

  /** One `key='value'` entry. */
  function Entry(key: string, v: string): string
  {
    key + "='" + v + "'"
  }

  /** The entries for the settings that are set, in the order of `keys`. */
  function Entries(a: Assoc<Option<string>>, keys: seq<string>): (r: seq<string>)
    ensures |r| <= |keys|
    decreases |keys|
  {
    if keys == [] then []
    else
      var rest := Entries(a, keys[1..]);
      var s := Setting(a, keys[0]);
      if s.Some? then [Entry(keys[0], s.value)] + rest else rest
  }

  /** The connection string built from an array of settings: the entries joined by a space. */
  function ConnectionString(a: Assoc<Option<string>>): string
  {
    Join(" ", Entries(a, Keywords))
  }

  /** What pg_connect is given, or none when the parameters have another type. */
  function ConnInfo(p: Params): (r: Option<string>)
    ensures r.None? <==> p.OtherType?
    ensures p.ConnText? ==> r == Some(p.text)
    ensures p.ConnFields? ==> r == Some(ConnectionString(p.fields))
  {
    match p
    case ConnText(s) => Some(s)
    case ConnFields(a) => Some(ConnectionString(a))
    case OtherType(_) => None
  }

  /**
   * The constructor on the connection table `conns` (alias to the
   * connection's settings). `connects` stands for whether pg_connect
   * succeeds. Gives the outcome and the new table.
   */
  function Construct(conns: map<string, string>, alias: string, params: Option<Params>, connects: bool): (r: (Outcome, map<string, string>))
    ensures r.0 == Reused <==> params.None? && alias in conns
    ensures r.0 == AliasNotFound <==> params.None? && alias !in conns
    ensures r.0 == Created <==> params.Some? && !params.value.OtherType? && alias !in conns && connects
    ensures r.0 == Created ==> r.1 == conns[alias := ConnInfo(params.value).value]
    ensures r.0 != Created ==> r.1 == conns
  {
    if params.None? then
      (if alias in conns then Reused else AliasNotFound, conns)
    else
      var info := ConnInfo(params.value);
      if info.None? then (InvalidParams(params.value.typeName), conns)
      else if alias in conns then (AliasExists, conns)
      else if !connects then (ConnectFailed, conns)
      else (Created, conns[alias := info.value])
  }

  /**
   * The constructor's six `isset` statements, in their order, each adding
   * the entry of a setting that is set; the entries are then joined by a
   * space.
   */
  method BuildConnectionString(a: Assoc<Option<string>>) returns (info: string)
    ensures info == ConnectionString(a)
  {
    var entries: seq<string> := [];
    entries := AddSetting(a, entries, "host");
    entries := AddSetting(a, entries, "port");
    entries := AddSetting(a, entries, "dbname");
    entries := AddSetting(a, entries, "user");
    entries := AddSetting(a, entries, "password");
    entries := AddSetting(a, entries, "options");
    KeywordEntries(a);
    info := Join(" ", entries);
  }

  /** `isset($params[key]) ? $connection_string[] = "key='…'" : Null`. */
  method AddSetting(a: Assoc<Option<string>>, entries: seq<string>, key: string) returns (r: seq<string>)
    ensures r == entries + Entries(a, [key])
  {
    var s := Setting(a, key);
    if s.Some? {
      r := entries + [Entry(key, s.value)];
    } else {
      r := entries;
    }
  }

  /** The entries of two lists of keywords, one after the other. */
  lemma {:induction false} EntriesAppend(a: Assoc<Option<string>>, xs: seq<string>, ys: seq<string>)
    ensures Entries(a, xs + ys) == Entries(a, xs) + Entries(a, ys)
    decreases |xs|
  {
    if xs == [] {
      assert xs + ys == ys;
    } else {
      assert (xs + ys)[0] == xs[0];
      assert (xs + ys)[1..] == xs[1..] + ys;
      EntriesAppend(a, xs[1..], ys);
      var s := Setting(a, xs[0]);
      if s.Some? {
        var e := [Entry(xs[0], s.value)];
        assert e + (Entries(a, xs[1..]) + Entries(a, ys)) == (e + Entries(a, xs[1..])) + Entries(a, ys);
      }
    }
  }

  /** The entries of the six keywords, one keyword at a time. */
  lemma KeywordEntries(a: Assoc<Option<string>>)
    ensures Entries(a, Keywords)
         == [] + Entries(a, ["host"]) + Entries(a, ["port"]) + Entries(a, ["dbname"])
            + Entries(a, ["user"]) + Entries(a, ["password"]) + Entries(a, ["options"])
  {
    var k1 := ["host"];
    var k2 := k1 + ["port"];
    var k3 := k2 + ["dbname"];
    var k4 := k3 + ["user"];
    var k5 := k4 + ["password"];
    assert Keywords == k5 + ["options"];
    EntriesAppend(a, k5, ["options"]);
    EntriesAppend(a, k4, ["password"]);
    EntriesAppend(a, k3, ["user"]);
    EntriesAppend(a, k2, ["dbname"]);
    EntriesAppend(a, k1, ["port"]);
    assert [] + Entries(a, k1) == Entries(a, k1);
  }

  /** The connection table. */
  class Connections {
    var table: map<string, string>

    constructor ()
      ensures table == map[]
    {
      table := map[];
    }

    /** PHPG::__construct, following its branches in order. */
    method Open(alias: string, params: Option<Params>, connects: bool) returns (outcome: Outcome)
      modifies this
      ensures (outcome, table) == Construct(old(table), alias, params, connects)
    {
      if params.None? {
        if alias in table {
          return Reused;
        }
        return AliasNotFound;
      }
      var info: string;
      match params.value {
        case ConnText(s) =>
          info := s;
          assert ConnInfo(params.value) == Some(info);
        case ConnFields(a) =>
          info := BuildConnectionString(a);
          assert ConnInfo(params.value) == Some(info);
        case OtherType(t) =>
          return InvalidParams(t);
      }
      if alias in table {
        return AliasExists;
      }
      if !connects {
        return ConnectFailed;
      }
      table := table[alias := info];
      return Created;
    }
  }

  /** Once an alias is registered, asking for it reuses it and creating it again fails. */
  lemma AliasRules(conns: map<string, string>, alias: string, p: Params, q: Params, connects: bool, again: bool)
    requires !p.OtherType? && !q.OtherType?
    requires Construct(conns, alias, Some(p), connects).0 == Created
    ensures var after := Construct(conns, alias, Some(p), connects).1;
            Construct(after, alias, None, again) == (Reused, after) &&
            Construct(after, alias, Some(q), again) == (AliasExists, after)
  {
  }

  /** Settings outside the six keywords are ignored. */
  lemma {:induction false} EntriesIgnoreOthers(a: Assoc<Option<string>>, k: string, v: Option<string>, keys: seq<string>)
    requires k !in keys
    ensures Entries(Put(a, k, v), keys) == Entries(a, keys)
    decreases |keys|
  {
    if keys != [] {
      PutOther(a, k, v, keys[0]);
      EntriesIgnoreOthers(a, k, v, keys[1..]);
    }
  }

  /** An unknown setting leaves the connection string as it was. */
  lemma UnknownSettingIgnored(a: Assoc<Option<string>>, k: string, v: Option<string>)
    requires k !in Keywords
    ensures ConnectionString(Put(a, k, v)) == ConnectionString(a)
  {
    EntriesIgnoreOthers(a, k, v, Keywords);
  }

  /** The entries depend only on the settings' values, not on the order they were given in. */
  lemma {:induction false} EntriesByValue(a: Assoc<Option<string>>, b: Assoc<Option<string>>, keys: seq<string>)
    requires forall i :: 0 <= i < |keys| ==> Setting(a, keys[i]) == Setting(b, keys[i])
    ensures Entries(a, keys) == Entries(b, keys)
    decreases |keys|
  {
    if keys != [] {
      assert Setting(a, keys[0]) == Setting(b, keys[0]);
      forall i | 0 <= i < |keys[1..]| ensures Setting(a, keys[1..][i]) == Setting(b, keys[1..][i]) {
        assert keys[1..][i] == keys[i + 1];
      }
      EntriesByValue(a, b, keys[1..]);
    }
  }

  /** Each entry is written `key='value'`, so none is empty. */
  lemma {:induction false} EntriesNotEmpty(a: Assoc<Option<string>>, keys: seq<string>)
    ensures forall i :: 0 <= i < |Entries(a, keys)| ==> |Entries(a, keys)[i]| >= 3
    decreases |keys|
  {
    if keys != [] {
      EntriesNotEmpty(a, keys[1..]);
    }
  }

  /** No entry is written exactly when no setting is set. */
  lemma {:induction false} EntriesNone(a: Assoc<Option<string>>, keys: seq<string>)
    ensures Entries(a, keys) == [] <==> forall i :: 0 <= i < |keys| ==> Setting(a, keys[i]).None?
    decreases |keys|
  {
    if keys != [] {
      EntriesNone(a, keys[1..]);
      if Entries(a, keys) == [] {
        forall i | 0 <= i < |keys| ensures Setting(a, keys[i]).None? {
          if i > 0 { assert keys[1..][i - 1] == keys[i]; }
        }
      } else if Setting(a, keys[0]).None? {
        var j :| 0 <= j < |keys[1..]| && Setting(a, keys[1..][j]).Some?;
        assert keys[j + 1] == keys[1..][j];
      }
    }
  }

  /** The connection string is empty exactly when none of the six settings is set. */
  lemma ConnectionStringEmpty(a: Assoc<Option<string>>)
    ensures ConnectionString(a) == "" <==> forall i :: 0 <= i < |Keywords| ==> Setting(a, Keywords[i]).None?
  {
    var es := Entries(a, Keywords);
    EntriesNone(a, Keywords);
    EntriesNotEmpty(a, Keywords);
    if es != [] {
      assert |Join(" ", es)| >= |es[0]| by {
        if |es| > 1 { assert Join(" ", es) == es[0] + " " + Join(" ", es[1..]); }
      }
    }
  }

  /** The entries for settings without spaces hold no space. */
  lemma {:induction false} EntriesWithoutSpace(a: Assoc<Option<string>>, keys: seq<string>)
    requires forall i :: 0 <= i < |keys| ==> ' ' !in keys[i]
    requires forall i :: 0 <= i < |keys| && Setting(a, keys[i]).Some? ==> ' ' !in Setting(a, keys[i]).value
    ensures forall i :: 0 <= i < |Entries(a, keys)| ==> ' ' !in Entries(a, keys)[i]
    decreases |keys|
  {
    if keys != [] {
      forall i | 0 <= i < |keys[1..]| ensures ' ' !in keys[1..][i] && (Setting(a, keys[1..][i]).Some? ==> ' ' !in Setting(a, keys[1..][i]).value) {
        assert keys[1..][i] == keys[i + 1];
      }
      EntriesWithoutSpace(a, keys[1..]);
    }
  }

  /**
   * When no value holds a space, splitting the connection string on spaces
   * gives back one `key='value'` entry per setting that is set, in keyword
   * order.
   */
  lemma ConnectionStringSplits(a: Assoc<Option<string>>)
    requires forall i :: 0 <= i < |Keywords| && Setting(a, Keywords[i]).Some? ==> ' ' !in Setting(a, Keywords[i]).value
    requires Entries(a, Keywords) != []
    ensures Explode(" ", ConnectionString(a)) == Entries(a, Keywords)
  {
    var es := Entries(a, Keywords);
    KeywordsWithoutSpace();
    EntriesWithoutSpace(a, Keywords);
    assert ' ' !in es[|es| - 1];
    NoOccurrenceOfChar(' ', es[|es| - 1]);
    assert " "[0] == ' ';
    ExplodeJoin(" ", es);
  }

  /** No keyword holds a space. */
  lemma KeywordsWithoutSpace()
    ensures forall i :: 0 <= i < |Keywords| ==> ' ' !in Keywords[i]
  {
  }

  /** The settings of an array holding a database name, a null port and a host. */
  lemma ExampleSettings(a: Assoc<Option<string>>, d: string, h: string)
    requires a == [("dbname", Some(d)), ("port", None), ("host", Some(h))]
    ensures Setting(a, "host") == Some(h) && Setting(a, "dbname") == Some(d)
    ensures Setting(a, "port") == None && Setting(a, "user") == None
    ensures Setting(a, "password") == None && Setting(a, "options") == None
  {
    var b := a[1..];
    var c := b[1..];
    assert b == [("port", None), ("host", Some(h))];
    assert c == [("host", Some(h))];
    assert c[1..] == [];
    assert |"dbname"| == 6 && |"port"| == 4 && |"host"| == 4 && |"user"| == 4;
    assert |"password"| == 8 && |"options"| == 7;
    assert "port" != "host" && "port" != "user" && "host" != "user";
    assert Get(a, "host") == Get(b, "host") == Get(c, "host") == Some(Some(h));
    assert Get(a, "port") == Get(b, "port") == Some(None);
    assert Get(a, "user") == Get(b, "user") == Get(c, "user") == Get(c[1..], "user") == None;
    assert Get(a, "password") == Get(b, "password") == Get(c, "password") == Get(c[1..], "password") == None;
    assert Get(a, "options") == Get(b, "options") == Get(c, "options") == Get(c[1..], "options") == None;
  }

  /** The entries come out in keyword order, whatever order the array gives them in. */
  lemma ConnectionStringExample(a: Assoc<Option<string>>, d: string, h: string)
    requires a == [("dbname", Some(d)), ("port", None), ("host", Some(h))]
    ensures ConnectionString(a) == "host='" + h + "' dbname='" + d + "'"
  {
    ExampleSettings(a, d, h);
    assert Keywords[1..][1..] == Keywords[2..];
    assert Keywords[2..][1..] == Keywords[3..];
    assert Keywords[3..][1..] == Keywords[4..] && Keywords[4..][1..] == Keywords[5..];
    assert Keywords[5..][1..] == Keywords[6..] == [];
    assert Keywords[3] == "user" && Keywords[4] == "password" && Keywords[5] == "options";
    assert Entries(a, Keywords[5..]) == [];
    assert Entries(a, Keywords[4..]) == [];
    assert Entries(a, Keywords[3..]) == [];
    assert Entries(a, Keywords[2..]) == [Entry("dbname", d)];
    var es := Entries(a, Keywords);
    assert es == [Entry("host", h), Entry("dbname", d)];
    assert es[1..] == [Entry("dbname", d)];
    assert Join(" ", es) == Entry("host", h) + " " + Entry("dbname", d);
  }
}
