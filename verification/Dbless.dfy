/** The in-memory store behind DB-less mode: declarative configuration loaded into tables with an
    endpoint-key index and a foreign-key index, and the listings built on them. */
module Dbless {
  import opened Wrappers
  import opened Sorting
  import opened Paging

  datatype TableName =
    | Services | Routes | Consumers | Upstreams | Targets | Plugins | Certificates | Snis | CaCertificates
    | Vaults | KeySets | Keys | AiProviders | AiModels | AiVirtualKeys

  /** The order in which tables are loaded. */
  const TABLES: seq<TableName> :=
    [Services, Routes, Consumers, Upstreams, Targets, Plugins, Certificates, Snis, CaCertificates,
     Vaults, KeySets, Keys, AiProviders, AiModels, AiVirtualKeys]

  /** The field a row can be looked up by; empty if there is none. */
  function EndpointKey(t: TableName): string {
    match t
    case Consumers => "username"
    case Vaults => "prefix"
    case Targets => ""
    case Plugins => ""
    case Certificates => ""
    case CaCertificates => ""
    case AiModels => ""
    case _ => "name"
  }

  function ForeignKeyFields(t: TableName): seq<string> {
    match t
    case Routes => ["service"]
    case Targets => ["upstream"]
    case Plugins => ["route", "service", "consumer"]
    case Snis => ["certificate"]
    case Keys => ["set"]
    case AiModels => ["provider_id"]
    case AiVirtualKeys => ["consumer_id"]
    case _ => []
  }

  /** The fields that can be looked up by. */
  lemma EndpointFields()
    ensures EndpointKey(Services) == EndpointKey(Routes) == EndpointKey(Upstreams) == EndpointKey(Snis) == "name"
    ensures EndpointKey(KeySets) == EndpointKey(Keys) == EndpointKey(AiProviders) == EndpointKey(AiVirtualKeys) == "name"
    ensures EndpointKey(Consumers) == "username" && EndpointKey(Vaults) == "prefix"
    ensures EndpointKey(Targets) == EndpointKey(Plugins) == EndpointKey(Certificates) == ""
    ensures EndpointKey(CaCertificates) == EndpointKey(AiModels) == ""
  {
  }

  /** The references that are indexed. */
  lemma IndexedReferences(t: TableName, field: string)
    ensures field in ForeignKeyFields(t) <==>
            || (t == Routes && field == "service") || (t == Targets && field == "upstream")
            || (t == Plugins && (field == "route" || field == "service" || field == "consumer"))
            || (t == Snis && field == "certificate") || (t == Keys && field == "set")
            || (t == AiModels && field == "provider_id") || (t == AiVirtualKeys && field == "consumer_id")
  {
  }

  // ---------------------------------------------------------------- configuration values

  /** A field: a string, an object (of which only its id matters), or anything else. */
  datatype Value = Text(text: string) | Object(id: Option<string>) | Other

  /** An array element: an object, or something without fields. */
  datatype Entity = Fields(fields: map<string, Value>) | Scalar

  datatype Section = Entities(entities: seq<Entity>) | NotArray
  datatype Config = Config(version: Option<Value>, tables: map<TableName, Section>) | NotObject

  datatype LoadError = ConfigNotObject | VersionNotString | UnsupportedVersion | TableNotArray(table: TableName)

  /** UUIDs are ordered ids; parse and render stand for the UUID library. */
  datatype Uuids = Uuids(parse: string -> Option<nat>, render: nat -> string)

  ghost predicate RoundTrips(u: Uuids) {
    forall id: nat :: u.parse(u.render(id)) == Some(id)
  }

  function TextOf(e: Entity, field: string): Option<string> {
    if e.Fields? && field in e.fields && e.fields[field].Text? then Some(e.fields[field].text) else None
  }

  function IdOf(u: Uuids, e: Entity): Option<nat> {
    var text := TextOf(e, "id");
    if text.Some? then u.parse(text.value) else None
  }

  /** A reference is an object with an id, or the id itself. */
  function RefOf(u: Uuids, e: Entity, field: string): Option<nat> {
    if e.Fields? && field in e.fields then
      match e.fields[field]
      case Text(s) => u.parse(s)
      case Object(id) => if id.Some? then u.parse(id.value) else None
      case Other => None
    else None
  }

  /** An entity refers to v by that id's text, or by an object that has it as its id. */
  lemma RefersExactlyWhen(u: Uuids, e: Entity, field: string, v: nat)
    ensures RefOf(u, e, field) == Some(v) <==>
            && e.Fields? && field in e.fields
            && exists s :: u.parse(s) == Some(v) && (e.fields[field] == Text(s) || e.fields[field] == Object(Some(s)))
  {
  }

  /** An entity's id is the text in its id field. */
  lemma IdentifiedExactlyWhen(u: Uuids, e: Entity, id: nat)
    ensures IdOf(u, e) == Some(id) <==>
            e.Fields? && "id" in e.fields && exists s :: u.parse(s) == Some(id) && e.fields["id"] == Text(s)
  {
  }

  // ---------------------------------------------------------------- what loading a table means

  datatype Row = Row(id: nat, entity: Entity)

  /** The row stored for an entity; without a usable id it is given the generated one. */
  function Stored(u: Uuids, generated: nat, e: Entity): Row {
    var id := IdOf(u, e);
    if id.Some? then Row(id.value, e)
    else Row(generated, if e.Fields? then Fields(e.fields["id" := Text(u.render(generated))]) else e)
  }

  /** An entity with an id is stored as it is under that id; any other under the generated one, which an
      object is also given, with all its other fields kept. */
  lemma StoredAs(u: Uuids, generated: nat, e: Entity)
    ensures forall id :: IdOf(u, e) == Some(id) ==> Stored(u, generated, e) == Row(id, e)
    ensures IdOf(u, e) == None ==> Stored(u, generated, e).id == generated
    ensures IdOf(u, e) == None && e.Scalar? ==> Stored(u, generated, e).entity == e
    ensures IdOf(u, e) == None && e.Fields? ==>
              var now := Stored(u, generated, e).entity;
              && now.Fields? && now.fields.Keys == e.fields.Keys + {"id"} && now.fields["id"] == Text(u.render(generated))
              && forall f :: f in e.fields && f != "id" ==> now.fields[f] == e.fields[f]
  {
  }

  function StoredRows(u: Uuids, generate: nat -> nat, es: seq<Entity>): (r: seq<Row>)
    ensures |r| == |es| && forall i :: 0 <= i < |es| ==> r[i] == Stored(u, generate(i), es[i])
  {
    seq(|es|, i requires 0 <= i < |es| => Stored(u, generate(i), es[i]))
  }

  function DataOf(rows: seq<Row>): map<nat, Entity> {
    if rows == [] then map[] else DataOf(rows[..|rows| - 1])[rows[|rows| - 1].id := rows[|rows| - 1].entity]
  }

  function KeysOf(field: string, rows: seq<Row>): map<string, nat> {
    if rows == [] then map[]
    else
      var front, key := KeysOf(field, rows[..|rows| - 1]), TextOf(rows[|rows| - 1].entity, field);
      if field != "" && key.Some? then front[key.value := rows[|rows| - 1].id] else front
  }

  /** Ids, in loading order, of the rows that refer to v in the given field. */
  function RefsOf(u: Uuids, field: string, v: nat, rows: seq<Row>): seq<nat> {
    if rows == [] then []
    else Pushed(u, RefsOf(u, field, v, rows[..|rows| - 1]), field, v, rows[|rows| - 1].entity)
  }

  /** One more entity: its id is pushed if it has one and refers to v. */
  function Pushed(u: Uuids, refs: seq<nat>, field: string, v: nat, e: Entity): seq<nat> {
    if IdOf(u, e).Some? && RefOf(u, e, field) == Some(v) then refs + [IdOf(u, e).value] else refs
  }

  lemma TableStep(rows: seq<Row>, row: Row, field: string)
    ensures DataOf(rows + [row]) == DataOf(rows)[row.id := row.entity]
    ensures var key := TextOf(row.entity, field);
            KeysOf(field, rows + [row])
            == if field != "" && key.Some? then KeysOf(field, rows)[key.value := row.id] else KeysOf(field, rows)
  {
    assert (rows + [row])[..|rows|] == rows;
  }

  type Index = map<TableName, map<string, map<nat, seq<nat>>>>

  function Refs(index: Index, t: TableName, field: string, v: nat): seq<nat> {
    if t in index && field in index[t] && v in index[t][field] then index[t][field][v] else []
  }

  function AddRef(index: Index, t: TableName, field: string, v: nat, id: nat): Index {
    var byField: map<string, map<nat, seq<nat>>> := if t in index then index[t] else map[];
    var byValue: map<nat, seq<nat>> := if field in byField then byField[field] else map[];
    index[t := byField[field := byValue[v := Refs(index, t, field, v) + [id]]]]
  }

  lemma AddRefAdds(index: Index, t: TableName, field: string, v: nat, id: nat, t': TableName, field': string, v': nat)
    ensures Refs(AddRef(index, t, field, v, id), t', field', v')
            == if t == t' && field == field' && v == v' then Refs(index, t, field, v) + [id] else Refs(index, t', field', v')
  {
  }

  /** What the index holds for a table whose rows are these. */
  function RefsIn(u: Uuids, t: TableName, field: string, v: nat, rows: seq<Row>): seq<nat> {
    if field in ForeignKeyFields(t) then RefsOf(u, field, v, rows) else []
  }

  ghost predicate SameRefs(was: Index, now: Index, t: TableName) {
    forall f, v :: Refs(now, t, f, v) == Refs(was, t, f, v)
  }

  ghost predicate OthersSame(was: Index, now: Index, t: TableName) {
    forall t' :: t' != t ==> SameRefs(was, now, t')
  }

  ghost predicate NoRefs(index: Index, t: TableName) {
    forall f, v :: Refs(index, t, f, v) == []
  }

  /** The index holds, for the table, exactly the references of these rows. */
  ghost predicate HoldsRefs(u: Uuids, index: Index, t: TableName, rows: seq<Row>) {
    forall f, v :: Refs(index, t, f, v) == RefsIn(u, t, f, v, rows)
  }

  ghost predicate IndexedOne(u: Uuids, was: Index, now: Index, t: TableName, e: Entity, fields: seq<string>) {
    forall f, v :: Refs(now, t, f, v) == if f in fields then Pushed(u, Refs(was, t, f, v), f, v, e) else Refs(was, t, f, v)
  }

  lemma IndexedStep(u: Uuids, was: Index, now: Index, t: TableName, rows: seq<Row>, row: Row)
    requires HoldsRefs(u, was, t, rows) && IndexedOne(u, was, now, t, row.entity, ForeignKeyFields(t))
    ensures HoldsRefs(u, now, t, rows + [row])
  {
    assert (rows + [row])[..|rows|] == rows;
  }

  /** The index with the reference the entity makes in one field, if any. */
  function WithRef(u: Uuids, index: Index, t: TableName, e: Entity, f: string): Index
    requires IdOf(u, e).Some?
  {
    if RefOf(u, e, f).Some? then AddRef(index, t, f, RefOf(u, e, f).value, IdOf(u, e).value) else index
  }

  lemma WithRefAdds(u: Uuids, index: Index, t: TableName, e: Entity, f: string, t': TableName, f': string, v': nat)
    requires IdOf(u, e).Some?
    ensures Refs(WithRef(u, index, t, e, f), t', f', v')
            == if t' == t && f' == f then Pushed(u, Refs(index, t, f, v'), f, v', e) else Refs(index, t', f', v')
  {
    if RefOf(u, e, f).Some? {
      AddRefAdds(index, t, f, RefOf(u, e, f).value, IdOf(u, e).value, t', f', v');
    }
  }

  lemma WithRefElsewhere(u: Uuids, index: Index, t: TableName, e: Entity, f: string)
    requires IdOf(u, e).Some?
    ensures OthersSame(index, WithRef(u, index, t, e, f), t)
  {
    forall t', f', v' | t' != t
      ensures Refs(WithRef(u, index, t, e, f), t', f', v') == Refs(index, t', f', v')
    {
      WithRefAdds(u, index, t, e, f, t', f', v');
    }
  }

  lemma IndexedOneStep(u: Uuids, was: Index, mid: Index, t: TableName, e: Entity, fields: seq<string>, f: string)
    requires IndexedOne(u, was, mid, t, e, fields) && f !in fields && IdOf(u, e).Some?
    ensures IndexedOne(u, was, WithRef(u, mid, t, e, f), t, e, fields + [f])
  {
    var now, more := WithRef(u, mid, t, e, f), fields + [f];
    forall f', v'
      ensures Refs(now, t, f', v') == if f' in more then Pushed(u, Refs(was, t, f', v'), f', v', e) else Refs(was, t, f', v')
    {
      WithRefAdds(u, mid, t, e, f, t, f', v');
      assert f' in more <==> f' in fields || f' == f;
    }
  }

  lemma OthersSameChain(was: Index, mid: Index, now: Index, t: TableName)
    requires OthersSame(was, mid, t) && OthersSame(mid, now, t)
    ensures OthersSame(was, now, t)
  {
    forall t' | t' != t
      ensures SameRefs(was, now, t')
    {
      assert SameRefs(was, mid, t') && SameRefs(mid, now, t');
    }
  }

  lemma ForeignKeyFieldsDistinct(t: TableName)
    ensures forall i, j :: 0 <= i < j < |ForeignKeyFields(t)| ==> ForeignKeyFields(t)[i] != ForeignKeyFields(t)[j]
  {
    if t == Plugins {
      assert "route"[0] == 'r' && "service"[0] == 's' && "consumer"[0] == 'c';
    }
  }

  /** Appends the entity's references to the index. */
  method BuildFkIndex(u: Uuids, index: Index, t: TableName, e: Entity) returns (now: Index)
    ensures IndexedOne(u, index, now, t, e, ForeignKeyFields(t)) && OthersSame(index, now, t)
  {
    now := index;
    if IdOf(u, e).None? {
      return;
    }
    ForeignKeyFieldsDistinct(t);
    now := IndexFields(u, index, t, e, ForeignKeyFields(t));
  }

  method IndexFields(u: Uuids, index: Index, t: TableName, e: Entity, fields: seq<string>) returns (now: Index)
    requires IdOf(u, e).Some? && forall i, j :: 0 <= i < j < |fields| ==> fields[i] != fields[j]
    ensures IndexedOne(u, index, now, t, e, fields) && OthersSame(index, now, t)
  {
    now := index;
    ghost var done: seq<string> := [];
    for i := 0 to |fields|
      invariant done == fields[..i] && IndexedOne(u, index, now, t, e, done) && OthersSame(index, now, t)
    {
      assert fields[i] !in done;
      ghost var mid := now;
      now := WithRef(u, now, t, e, fields[i]);
      IndexedOneStep(u, index, mid, t, e, done, fields[i]);
      WithRefElsewhere(u, mid, t, e, fields[i]);
      OthersSameChain(index, mid, now, t);
      done := done + [fields[i]];
    }
    assert done == fields;
  }

  function Rank(t: TableName): (r: nat)
    ensures r < |TABLES| && TABLES[r] == t
  {
    match t
    case Services => 0 case Routes => 1 case Consumers => 2 case Upstreams => 3 case Targets => 4
    case Plugins => 5 case Certificates => 6 case Snis => 7 case CaCertificates => 8 case Vaults => 9
    case KeySets => 10 case Keys => 11 case AiProviders => 12 case AiModels => 13 case AiVirtualKeys => 14
  }

  lemma RankOfTable(i: nat)
    requires i < |TABLES|
    ensures Rank(TABLES[i]) == i
  {
    assert |TABLES| == 15;
    if
    case i < 5 => assert i == 0 || i == 1 || i == 2 || i == 3 || i == 4;
    case 5 <= i < 10 => assert i == 5 || i == 6 || i == 7 || i == 8 || i == 9;
    case 10 <= i => assert i == 10 || i == 11 || i == 12 || i == 13 || i == 14;
  }

  predicate SupportedVersion(v: string) {
    v in ["1.1", "2.1", "3.0"]
  }

  function VersionError(config: Config): Option<LoadError> {
    if config.NotObject? then Some(ConfigNotObject)
    else if config.version.None? then None
    else if !config.version.value.Text? then Some(VersionNotString)
    else if !SupportedVersion(config.version.value.text) then Some(UnsupportedVersion)
    else None
  }

  /** Which configurations are rejected as a whole, and why. */
  lemma RejectedExactlyWhen(config: Config)
    ensures VersionError(config) == Some(ConfigNotObject) <==> config.NotObject?
    ensures VersionError(config) == Some(VersionNotString) <==>
            config.Config? && config.version.Some? && !exists v :: config.version == Some(Text(v))
    ensures VersionError(config) == Some(UnsupportedVersion) <==>
            config.Config? && exists v :: config.version == Some(Text(v)) && v != "1.1" && v != "2.1" && v != "3.0"
  {
    if config.Config? && config.version.Some? && config.version.value.Text? {
      assert config.version == Some(Text(config.version.value.text));
    }
  }

  type Generator = TableName -> nat -> nat

  /** What the loop over an array's entities has built so far. */
  ghost predicate Filled(u: Uuids, index: Index, t: TableName, done: seq<Row>, table: map<nat, Entity>, keys: map<string, nat>, now: Index) {
    table == DataOf(done) && keys == KeysOf(EndpointKey(t), done) && HoldsRefs(u, now, t, done) && OthersSame(index, now, t)
  }

  /** Stores one row and indexes it. */
  method AddRow(u: Uuids, index: Index, t: TableName, row: Row, table: map<nat, Entity>, keys: map<string, nat>, was: Index, ghost done: seq<Row>)
    returns (table': map<nat, Entity>, keys': map<string, nat>, now: Index)
    requires Filled(u, index, t, done, table, keys, was)
    ensures Filled(u, index, t, done + [row], table', keys', now)
  {
    var key := EndpointKey(t);
    var text := TextOf(row.entity, key);
    keys' := if key != "" && text.Some? then keys[text.value := row.id] else keys;
    now := BuildFkIndex(u, was, t, row.entity);
    IndexedStep(u, was, now, t, done, row);
    OthersSameChain(index, was, now, t);
    TableStep(done, row, key);
    table' := table[row.id := row.entity];
  }

  /** Stores every entity of one array and indexes it. */
  method FillTable(u: Uuids, index: Index, t: TableName, es: seq<Entity>, generate: nat -> nat)
    returns (table: map<nat, Entity>, keys: map<string, nat>, now: Index)
    requires NoRefs(index, t)
    ensures Filled(u, index, t, StoredRows(u, generate, es), table, keys, now)
  {
    ghost var rows := StoredRows(u, generate, es);
    ghost var done: seq<Row> := [];
    table, keys, now := map[], map[], index;
    for i := 0 to |es|
      invariant done == rows[..i] && Filled(u, index, t, done, table, keys, now)
    {
      var row := Stored(u, generate(i), es[i]);
      table, keys, now := AddRow(u, index, t, row, table, keys, now, done);
      done := done + [row];
    }
    assert done == rows;
  }

  class DblessStore {
    const uuids: Uuids
    var data: map<TableName, map<nat, Entity>>
    var endpointKeys: map<TableName, map<string, nat>>
    var foreignKeys: Index

    constructor (uuids: Uuids)
      ensures this.uuids == uuids && forall t :: Lacks(t)
    {
      this.uuids := uuids;
      data, endpointKeys, foreignKeys := map[], map[], map[];
    }

    /** The table and both its indexes hold exactly these rows. */
    ghost predicate Holds(t: TableName, rows: seq<Row>)
      reads this
    {
      && t in data && data[t] == DataOf(rows)
      && t in endpointKeys && endpointKeys[t] == KeysOf(EndpointKey(t), rows)
      && HoldsRefs(uuids, foreignKeys, t, rows)
    }

    ghost predicate Lacks(t: TableName)
      reads this
    {
      t !in data && t !in endpointKeys && NoRefs(foreignKeys, t)
    }

    twostate predicate Keeps(t: TableName)
      reads this
    {
      && (t in data <==> t in old(data)) && (t in data ==> data[t] == old(data[t]))
      && (t in endpointKeys <==> t in old(endpointKeys)) && (t in endpointKeys ==> endpointKeys[t] == old(endpointKeys[t]))
      && SameRefs(old(foreignKeys), foreignKeys, t)
    }

    method LoadTable(t: TableName, es: seq<Entity>, generate: nat -> nat)
      requires Lacks(t)
      modifies this
      ensures Holds(t, StoredRows(uuids, generate, es))
      ensures forall t' :: t' != t ==> Keeps(t')
    {
      var table, keys, index := FillTable(uuids, foreignKeys, t, es, generate);
      assert OthersSame(foreignKeys, index, t);
      data, endpointKeys, foreignKeys := data[t := table], endpointKeys[t := keys], index;
      forall t' | t' != t
        ensures Keeps(t')
      {
        assert SameRefs(old(foreignKeys), foreignKeys, t');
      }
    }

    /** The first n tables of the configuration are loaded, and nothing else is. */
    ghost predicate LoadedUpTo(config: Config, generate: Generator, n: nat)
      requires config.Config?
      reads this
    {
      forall t :: LoadedAs(config, generate, n, t)
    }

    ghost predicate LoadedAs(config: Config, generate: Generator, n: nat, t: TableName)
      requires config.Config?
      reads this
    {
      if Rank(t) < n && t in config.tables then
        config.tables[t].Entities? && Holds(t, StoredRows(uuids, generate(t), config.tables[t].entities))
      else Lacks(t)
    }

    /** Loading the table of rank n leaves the others as they were. */
    method LoadNext(config: Config, generate: Generator, n: nat, t: TableName, m: nat)
      requires m == n + 1 && config.Config? && Rank(t) == n && t in config.tables && config.tables[t].Entities?
      requires LoadedUpTo(config, generate, n)
      modifies this
      ensures LoadedUpTo(config, generate, m)
    {
      assert LoadedAs(config, generate, n, t);
      LoadTable(t, config.tables[t].entities, generate(t));
      forall t'
        ensures LoadedAs(config, generate, m, t')
      {
        if t' != t {
          assert old(LoadedAs(config, generate, n, t')) && Keeps(t');
          assert Rank(t') != n by {
            assert TABLES[Rank(t')] == t';
          }
        }
      }
    }

    lemma SkipTable(config: Config, generate: Generator, n: nat, t: TableName, m: nat)
      requires m == n + 1 && config.Config? && Rank(t) == n && t !in config.tables && LoadedUpTo(config, generate, n)
      ensures LoadedUpTo(config, generate, m)
    {
      forall t'
        ensures LoadedAs(config, generate, m, t')
      {
        assert LoadedAs(config, generate, n, t');
        assert t' != t ==> Rank(t') != n by {
          assert TABLES[Rank(t')] == t';
        }
      }
    }

    /** Replaces the store's contents. A bad header leaves them alone; a table that is not an array
        stops the load with the tables before it in place and the old contents gone. */
    method LoadFromJson(config: Config, generate: Generator) returns (error: Option<LoadError>)
      modifies this
      ensures VersionError(config).Some? ==>
                error == VersionError(config) && data == old(data) && endpointKeys == old(endpointKeys) && foreignKeys == old(foreignKeys)
      ensures VersionError(config).None? ==>
                match error
                case None => LoadedUpTo(config, generate, |TABLES|)
                case Some(TableNotArray(t)) => t in config.tables && config.tables[t].NotArray? && LoadedUpTo(config, generate, Rank(t))
                case _ => false
    {
      error := VersionError(config);
      if error.Some? {
        return;
      }
      data, endpointKeys, foreignKeys := map[], map[], map[];
      for i := 0 to |TABLES|
        invariant LoadedUpTo(config, generate, i)
      {
        var t := TABLES[i];
        RankOfTable(i);
        if t in config.tables {
          if config.tables[t].NotArray? {
            return Some(TableNotArray(t));
          }
          LoadNext(config, generate, i, t, i + 1);
        } else {
          SkipTable(config, generate, i, t, i + 1);
        }
      }
    }

    // -------------------------------------------------------------- reading

    function GetEntity(t: TableName, id: nat): Option<Entity>
      reads this
    {
      if t in data && id in data[t] then Some(data[t][id]) else None
    }

    function GetEntityByEndpointKey(t: TableName, key: string): Option<Entity>
      reads this
    {
      if t in endpointKeys && key in endpointKeys[t] then GetEntity(t, endpointKeys[t][key]) else None
    }

    function TableOf(t: TableName): map<nat, Entity>
      reads this
    {
      if t in data then data[t] else map[]
    }

    /** A page of the table in ascending order of ids. */
    method ListEntities(t: TableName, offset: Option<nat>, limit: nat) returns (rows: seq<Entity>, next: Option<nat>, ghost ids: seq<nat>)
      ensures Lists(ids, TableOf(t).Keys)
      ensures Listed(uuids, TableOf(t), ListPage(ids, offset, limit), rows, next)
    {
      var sorted := SortKeys(TableOf(t).Keys);
      ids := sorted;
      rows, next := ListSorted(uuids, TableOf(t), sorted, offset, limit);
    }

    /** A page of the rows the foreign-key index has for the value. */
    method ListByForeignKey(t: TableName, field: string, v: nat, offset: Option<nat>, limit: nat)
      returns (rows: seq<Entity>, next: Option<nat>)
      ensures var ids := Sort(AtMost, Refs(foreignKeys, t, field, v));
              Listed(uuids, TableOf(t), ListPage(ids, offset, limit), rows, next)
    {
      rows, next := ListSorted(uuids, TableOf(t), Sort(AtMost, Refs(foreignKeys, t, field, v)), offset, limit);
    }

    /** One page of a listing with equality filters; None if a row on it does not decode. */
    method GetPage(t: TableName, filters: Filters, offset: Option<nat>, size: nat, decodes: Entity -> bool)
      returns (result: Option<(seq<Entity>, Option<nat>)>, ghost ids: seq<nat>)
      ensures Lists(ids, TableOf(t).Keys)
      ensures var page := PageFor(ids, TableOf(t), filters, offset, size);
              && (result.Some? <==> AllDecode(decodes, RowsAt(TableOf(t), page.ids)))
              && (result.Some? ==> Listed(uuids, TableOf(t), page, result.value.0, result.value.1))
    {
      var rows, next;
      rows, next, ids := ListEntities(t, offset, if filters == [] then size else size * 10);
      if filters != [] {
        FilteredRows(TableOf(t), filters, ids, offset, size, rows);
        var kept := Filter(MatchesAll(filters), rows);
        var more := |kept| > size;
        rows := if more then kept[..size] else kept;
        next := if more && rows != [] then IdOf(uuids, rows[|rows| - 1]) else None;
      }
      result := if AllDecode(decodes, rows) then Some((rows, next)) else None;
    }

    /** A client that follows every offset. */
    method FollowPages(t: TableName, filters: Filters, size: nat, decodes: Entity -> bool)
      returns (seen: seq<Entity>, pages: nat, ghost ids: seq<nat>)
      requires size > 0 && CarriesIds(uuids, TableOf(t))
      requires forall id :: id in TableOf(t) ==> decodes(TableOf(t)[id])
      ensures Lists(ids, TableOf(t).Keys)
      ensures seen == RowsAt(TableOf(t), Flatten(WalkFor(ids, TableOf(t), filters, size, None)))
      ensures pages == |WalkFor(ids, TableOf(t), filters, size, None)|
      ensures filters == [] ==> seen == RowsAt(TableOf(t), ids) && pages == PageCount(|ids|, size)
      ensures filters != [] ==> SeesMatching(TableOf(t), filters, ids, size, seen)
    {
      var table := TableOf(t);
      var sorted := SortKeys(table.Keys);
      ids := sorted;
      seen, pages := [], 0;
      var offset: Option<nat>, more := None, true;
      ghost var done: seq<nat>, todo := [], WalkFor(ids, table, filters, size, None);
      ghost var whole := todo;
      while more
        invariant more ==> todo == WalkFor(ids, table, filters, size, offset)
        invariant !more ==> todo == []
        invariant Flatten(whole) == done + Flatten(todo) && seen == RowsAt(table, done) && pages + |todo| == |whole|
        decreases |todo|
      {
        var result;
        ghost var these;
        result, these := GetPage(t, filters, offset, size, decodes);
        ListsUnique(these, ids, table.Keys);
        ghost var page := PageFor(ids, table, filters, offset, size);
        FollowStep(uuids, table, filters, ids, size, offset, decodes, page, done, todo, whole);
        var (rows, next) := result.value;
        seen, pages := seen + rows, pages + 1;
        done, todo := done + page.ids, todo[1..];
        offset, more := next, next.Some?;
      }
      assert Flatten(todo) == [] && done + [] == done;
      if filters == [] {
        WalkVisitsAll(ids, size);
      } else {
        FilteredListingCompleteExactlyWhen(table, filters, ids, size);
      }
    }

    /** One page of a listing by foreign key; None if a row on it does not decode. */
    method SelectByForeignKey(t: TableName, field: string, v: nat, offset: Option<nat>, size: nat, decodes: Entity -> bool)
      returns (result: Option<(seq<Entity>, Option<nat>)>)
      ensures var page := ListPage(Sort(AtMost, Refs(foreignKeys, t, field, v)), offset, size);
              && (result.Some? <==> AllDecode(decodes, RowsAt(TableOf(t), page.ids)))
              && (result.Some? ==> Listed(uuids, TableOf(t), page, result.value.0, result.value.1))
    {
      var rows, next := ListByForeignKey(t, field, v, offset, size);
      result := if AllDecode(decodes, rows) then Some((rows, next)) else None;
    }

    /** A client that follows every offset of a listing by foreign key: it fails exactly when some
        referring row does not decode, and otherwise sees them all. */
    method FollowForeignKey(t: TableName, field: string, v: nat, size: nat, decodes: Entity -> bool, ghost rows: seq<Row>)
      returns (seen: Option<seq<Entity>>, pages: nat, ghost ids: seq<nat>)
      requires size > 0 && field in ForeignKeyFields(t)
      requires Holds(t, rows) && DistinctIds(rows) && RowsCarryIds(uuids, rows)
      ensures Lists(ids, Referrers(uuids, TableOf(t), field, v)) && |RowsAt(TableOf(t), ids)| == |ids|
      ensures seen == if AllDecode(decodes, RowsAt(TableOf(t), ids)) then Some(RowsAt(TableOf(t), ids)) else None
      ensures seen.Some? ==> pages == PageCount(|ids|, size)
    {
      ghost var table := TableOf(t);
      ids := Sort(AtMost, Refs(foreignKeys, t, field, v));
      ForeignKeyListsReferrers(this, t, rows, field, v);
      LoadedTableCarriesIds(uuids, rows);
      AllReferrersStored(uuids, table, field, v, ids);
      RowsAtAll(table, ids);
      WalkVisitsAll(ids, size);
      seen, pages := CollectPages(t, field, v, size, decodes, ids);
    }

    method CollectPages(t: TableName, field: string, v: nat, size: nat, decodes: Entity -> bool, ghost ids: seq<nat>)
      returns (seen: Option<seq<Entity>>, pages: nat)
      requires ids == Sort(AtMost, Refs(foreignKeys, t, field, v)) && Ascending(ids) && size > 0
      requires CarriesIds(uuids, TableOf(t)) && forall i :: 0 <= i < |ids| ==> ids[i] in TableOf(t)
      ensures seen.None? ==> !AllDecode(decodes, RowsAt(TableOf(t), ids))
      ensures seen.Some? ==> seen.value == RowsAt(TableOf(t), ids) && AllDecode(decodes, seen.value)
      ensures seen.Some? ==> pages == |Walk(ids, size, None)|
    {
      ghost var table := TableOf(t);
      WalkFrom(ids, size, None, 0);
      var got: seq<Entity> := [];
      pages := 0;
      var offset: Option<nat>, more := None, true;
      ghost var done: seq<nat>, todo := [], Walk(ids, size, None);
      while more
        invariant Following(ids, size, offset, more, done, todo) && pages + |todo| == |Walk(ids, size, None)|
        invariant got == RowsAt(table, done) && AllDecode(decodes, got)
        decreases |todo|
      {
        var result := SelectByForeignKey(t, field, v, offset, size, decodes);
        ghost var page := ListPage(ids, offset, size);
        FollowingStep(uuids, table, ids, size, offset, page, done, todo);
        PageDecodes(table, decodes, done, page.ids, Flatten(todo[1..]), ids);
        if result.None? {
          return None, pages;
        }
        BothDecode(decodes, got, result.value.0);
        got, pages := got + result.value.0, pages + 1;
        done, todo := done + page.ids, todo[1..];
        offset, more := result.value.1, result.value.1.Some?;
      }
      FollowedAll(ids, size, offset, done, todo);
      return Some(got), pages;
    }
  }

  // ---------------------------------------------------------------- listing

  predicate AtMost(a: nat, b: nat) {
    a <= b
  }

  /** The elements of keys in ascending order. */
  ghost predicate Lists(ids: seq<nat>, keys: set<nat>) {
    Ascending(ids) && forall x: nat :: x in ids <==> x in keys
  }

  /** The rows of the given ids, skipping ids without one. */
  function RowsAt(table: map<nat, Entity>, ids: seq<nat>): seq<Entity> {
    if ids == [] then []
    else
      var front, id := RowsAt(table, ids[..|ids| - 1]), ids[|ids| - 1];
      if id in table then front + [table[id]] else front
  }

  /** The rows of the page; the next offset is read back from the last row. */
  ghost predicate Listed(u: Uuids, table: map<nat, Entity>, page: Paging.Page, rows: seq<Entity>, next: Option<nat>) {
    && rows == RowsAt(table, page.ids)
    && next == if page.next.Some? && rows != [] then IdOf(u, rows[|rows| - 1]) else None
  }

  type Filters = seq<(string, string)>

  function MatchesAll(filters: Filters): Entity -> bool {
    (e: Entity) => forall i :: 0 <= i < |filters| ==> TextOf(e, filters[i].0) == Some(filters[i].1)
  }

  function KeepIn(table: map<nat, Entity>, filters: Filters): nat -> bool {
    (id: nat) => id in table && MatchesAll(filters)(table[id])
  }

  function PageFor(ids: seq<nat>, table: map<nat, Entity>, filters: Filters, offset: Option<nat>, size: nat): Paging.Page {
    if filters == [] then ListPage(ids, offset, size) else FilteredPage(ids, KeepIn(table, filters), offset, size)
  }

  function WalkFor(ids: seq<nat>, table: map<nat, Entity>, filters: Filters, size: nat, offset: Option<nat>): seq<seq<nat>>
    requires Ascending(ids) && size > 0
  {
    if filters == [] then Walk(ids, size, offset) else FilteredWalk(ids, KeepIn(table, filters), size, offset)
  }

  predicate AllDecode(decodes: Entity -> bool, rows: seq<Entity>) {
    forall i :: 0 <= i < |rows| ==> decodes(rows[i])
  }

  /** Every row knows its own id, as rows loaded from objects do. */
  ghost predicate CarriesIds(u: Uuids, table: map<nat, Entity>) {
    forall id :: id in table ==> IdOf(u, table[id]) == Some(id)
  }

  ghost predicate NoDuplicates(s: seq<nat>) {
    forall i, j :: 0 <= i < j < |s| ==> s[i] != s[j]
  }

  lemma {:induction false} InsertAscends(s: seq<nat>, x: nat)
    requires Ascending(s) && x !in s
    ensures Ascending(Insert(AtMost, s, x))
    ensures forall y :: y in Insert(AtMost, s, x) <==> y in s || y == x
  {
    if s != [] {
      var front, last := s[..|s| - 1], s[|s| - 1];
      assert s == front + [last] && last in s;
      if last > x {
        InsertAscends(front, x);
        AppendAscends(Insert(AtMost, front, x), last);
      } else {
        AppendAscends(s, x);
      }
    }
  }

  lemma AppendAscends(s: seq<nat>, x: nat)
    requires Ascending(s) && forall y :: y in s ==> y < x
    ensures Ascending(s + [x])
  {
    assert forall i :: 0 <= i < |s| ==> s[i] in s;
  }

  lemma {:induction false} SortAscends(s: seq<nat>)
    requires NoDuplicates(s)
    ensures Ascending(Sort(AtMost, s))
    ensures forall y :: y in Sort(AtMost, s) <==> y in s
  {
    if s != [] {
      var front, last := s[..|s| - 1], s[|s| - 1];
      assert s == front + [last];
      SortAscends(front);
      InsertAscends(Sort(AtMost, front), last);
    }
  }

  /** The keys come out of the table in any order. */
  method SortKeys(keys: set<nat>) returns (ids: seq<nat>)
    ensures Lists(ids, keys)
  {
    ids := [];
    var left := keys;
    while left != {}
      invariant NoDuplicates(ids) && left <= keys
      invariant forall x: nat :: x in ids <==> x in keys && x !in left
      decreases left
    {
      var x :| x in left;
      ids, left := ids + [x], left - {x};
    }
    SortAscends(ids);
    ids := Sort(AtMost, ids);
  }

  method ListSorted(u: Uuids, table: map<nat, Entity>, ids: seq<nat>, offset: Option<nat>, limit: nat)
    returns (rows: seq<Entity>, next: Option<nat>)
    ensures Listed(u, table, ListPage(ids, offset, limit), rows, next)
  {
    var start := StartOf(ids, offset);
    var hasNext := |ids| - start > limit;
    rows := RowsAt(table, ids[start..if hasNext then start + limit else |ids|]);
    next := if hasNext && rows != [] then IdOf(u, rows[|rows| - 1]) else None;
  }

  lemma {:induction false} ListsUnique(a: seq<nat>, b: seq<nat>, keys: set<nat>)
    requires Lists(a, keys) && Lists(b, keys)
    ensures a == b
  {
    if a != [] && b != [] {
      var x, y := a[|a| - 1], b[|b| - 1];
      assert x in b && y in a && x == y;
      var a', b' := a[..|a| - 1], b[..|b| - 1];
      assert a == a' + [x] && b == b' + [x];
      assert x !in a' && x !in b';
      ListsUnique(a', b', keys - {x});
    } else if a != [] {
      assert a[0] in b;
    } else if b != [] {
      assert b[0] in a;
    }
  }

  lemma {:induction false} RowsAtConcat(table: map<nat, Entity>, a: seq<nat>, b: seq<nat>)
    ensures RowsAt(table, a + b) == RowsAt(table, a) + RowsAt(table, b)
  {
    if b == [] {
      assert a + b == a;
    } else {
      RowsAtConcat(table, a, b[..|b| - 1]);
      assert (a + b)[..|a + b| - 1] == a + b[..|b| - 1];
    }
  }

  lemma {:induction false} RowsAtAll(table: map<nat, Entity>, ids: seq<nat>)
    requires forall i :: 0 <= i < |ids| ==> ids[i] in table
    ensures |RowsAt(table, ids)| == |ids|
    ensures forall i :: 0 <= i < |ids| ==> RowsAt(table, ids)[i] == table[ids[i]]
  {
    if ids != [] {
      RowsAtAll(table, ids[..|ids| - 1]);
    }
  }

  lemma {:induction false} FilterRowsAt(table: map<nat, Entity>, filters: Filters, ids: seq<nat>)
    requires forall i :: 0 <= i < |ids| ==> ids[i] in table
    ensures Filter(MatchesAll(filters), RowsAt(table, ids)) == RowsAt(table, Filter(KeepIn(table, filters), ids))
    ensures forall id :: id in Filter(KeepIn(table, filters), ids) ==> id in table
  {
    if ids != [] {
      var front, id := ids[..|ids| - 1], ids[|ids| - 1];
      FilterRowsAt(table, filters, front);
      var rows, kept := RowsAt(table, front), Filter(KeepIn(table, filters), front);
      assert (rows + [table[id]])[..|rows|] == rows;
      assert (kept + [id])[..|kept|] == kept;
    }
  }

  /** Filtering the fetched rows and cutting them to a page is the page of the filtered ids. */
  lemma FilteredRows(table: map<nat, Entity>, filters: Filters, ids: seq<nat>, offset: Option<nat>, size: nat, rows: seq<Entity>)
    requires Lists(ids, table.Keys) && rows == RowsAt(table, ListPage(ids, offset, 10 * size).ids)
    ensures var kept := Filter(MatchesAll(filters), rows);
            var page := FilteredPage(ids, KeepIn(table, filters), offset, size);
            && RowsAt(table, page.ids) == (if |kept| > size then kept[..size] else kept)
            && (page.next.Some? <==> |kept| > size && size > 0)
  {
    var fetched := ListPage(ids, offset, 10 * size).ids;
    FetchedInTable(table, ids, offset, 10 * size);
    FilterRowsAt(table, filters, fetched);
    CutRows(table, Filter(KeepIn(table, filters), fetched), size);
  }

  lemma CutRows(table: map<nat, Entity>, found: seq<nat>, size: nat)
    requires forall id :: id in found ==> id in table
    ensures var kept, page := RowsAt(table, found), CutToPage(found, size);
            && RowsAt(table, page.ids) == (if |kept| > size then kept[..size] else kept)
            && (page.next.Some? <==> |kept| > size && size > 0)
  {
    assert forall i :: 0 <= i < |found| ==> found[i] in found;
    RowsAtAll(table, found);
    if |found| > size {
      RowsAtAll(table, found[..size]);
    }
  }

  lemma FetchedInTable(table: map<nat, Entity>, ids: seq<nat>, offset: Option<nat>, limit: nat)
    requires Lists(ids, table.Keys)
    ensures var fetched := ListPage(ids, offset, limit).ids;
            forall i :: 0 <= i < |fetched| ==> fetched[i] in table
  {
    var start, fetched := StartOf(ids, offset), ListPage(ids, offset, limit).ids;
    forall i | 0 <= i < |fetched|
      ensures fetched[i] in table
    {
      assert fetched[i] == ids[start + i] && ids[start + i] in ids;
    }
  }

  lemma PageInTable(table: map<nat, Entity>, filters: Filters, ids: seq<nat>, offset: Option<nat>, size: nat, page: Paging.Page)
    requires Lists(ids, table.Keys) && page == PageFor(ids, table, filters, offset, size)
    ensures forall i :: 0 <= i < |page.ids| ==> page.ids[i] in table
    ensures page.next.Some? ==> page.ids != [] && page.next.value == page.ids[|page.ids| - 1]
  {
    if filters == [] {
      FetchedInTable(table, ids, offset, size);
    } else {
      FilterKeeps(KeepIn(table, filters), ListPage(ids, offset, 10 * size).ids);
      CutInTable(table, Filter(KeepIn(table, filters), ListPage(ids, offset, 10 * size).ids), size);
    }
  }

  lemma {:induction false} FilterKeeps(keep: nat -> bool, ids: seq<nat>)
    ensures forall id :: id in Filter(keep, ids) ==> keep(id)
  {
    if ids != [] {
      FilterKeeps(keep, ids[..|ids| - 1]);
    }
  }

  lemma CutInTable(table: map<nat, Entity>, found: seq<nat>, size: nat)
    requires forall id :: id in found ==> id in table
    ensures var page := CutToPage(found, size);
            && (forall i :: 0 <= i < |page.ids| ==> page.ids[i] in table)
            && (page.next.Some? ==> page.ids != [] && page.next.value == page.ids[|page.ids| - 1])
  {
    assert forall i :: 0 <= i < |found| ==> found[i] in found;
  }

  /** Rows that know their ids hand out the next offset unharmed. */
  lemma PageIsListed(u: Uuids, table: map<nat, Entity>, filters: Filters, ids: seq<nat>, offset: Option<nat>, size: nat,
                     page: Paging.Page, decodes: Entity -> bool)
    requires Lists(ids, table.Keys) && CarriesIds(u, table) && page == PageFor(ids, table, filters, offset, size)
    requires forall id :: id in table ==> decodes(table[id])
    ensures AllDecode(decodes, RowsAt(table, page.ids))
    ensures forall rows, next :: Listed(u, table, page, rows, next) ==> next == page.next
  {
    PageInTable(table, filters, ids, offset, size, page);
    RowsAtAll(table, page.ids);
  }

  lemma WalkForStep(ids: seq<nat>, table: map<nat, Entity>, filters: Filters, size: nat, offset: Option<nat>, page: Paging.Page)
    requires Ascending(ids) && size > 0 && page == PageFor(ids, table, filters, offset, size)
    ensures WalkFor(ids, table, filters, size, offset)
            == [page.ids] + (if page.next.None? then [] else WalkFor(ids, table, filters, size, page.next))
  {
  }

  lemma FollowStep(u: Uuids, table: map<nat, Entity>, filters: Filters, ids: seq<nat>, size: nat, offset: Option<nat>,
                   decodes: Entity -> bool, page: Paging.Page, done: seq<nat>, todo: seq<seq<nat>>, whole: seq<seq<nat>>)
    requires size > 0 && Lists(ids, table.Keys) && CarriesIds(u, table)
    requires page == PageFor(ids, table, filters, offset, size)
    requires forall id :: id in table ==> decodes(table[id])
    requires todo == WalkFor(ids, table, filters, size, offset) && Flatten(whole) == done + Flatten(todo)
    ensures AllDecode(decodes, RowsAt(table, page.ids))
    ensures forall rows, next :: Listed(u, table, page, rows, next) ==> next == page.next
    ensures todo != [] && todo[1..] == if page.next.None? then [] else WalkFor(ids, table, filters, size, page.next)
    ensures Flatten(whole) == done + page.ids + Flatten(todo[1..])
    ensures RowsAt(table, done + page.ids) == RowsAt(table, done) + RowsAt(table, page.ids)
  {
    PageIsListed(u, table, filters, ids, offset, size, page, decodes);
    WalkForStep(ids, table, filters, size, offset, page);
    Advance(page.ids, if page.next.None? then [] else WalkFor(ids, table, filters, size, page.next), done, todo, whole);
    RowsAtConcat(table, done, page.ids);
  }

  lemma Advance(page: seq<nat>, rest: seq<seq<nat>>, done: seq<nat>, todo: seq<seq<nat>>, whole: seq<seq<nat>>)
    requires todo == [page] + rest && Flatten(whole) == done + Flatten(todo)
    ensures todo != [] && todo[1..] == rest && Flatten(whole) == done + page + Flatten(todo[1..])
  {
    FlattenCons(page, rest);
  }

  /** A client has the pages of done behind it and those of todo before it. */
  ghost predicate Following(ids: seq<nat>, size: nat, offset: Option<nat>, more: bool, done: seq<nat>, todo: seq<seq<nat>>) {
    && Ascending(ids) && size > 0 && done + Flatten(todo) == ids
    && todo == if more then Walk(ids, size, offset) else []
  }

  lemma FollowingStep(u: Uuids, table: map<nat, Entity>, ids: seq<nat>, size: nat, offset: Option<nat>, page: Paging.Page,
                      done: seq<nat>, todo: seq<seq<nat>>)
    requires Following(ids, size, offset, true, done, todo) && CarriesIds(u, table) && page == ListPage(ids, offset, size)
    requires forall i :: 0 <= i < |ids| ==> ids[i] in table
    ensures forall rows, next :: Listed(u, table, page, rows, next) ==> next == page.next
    ensures todo != [] && Following(ids, size, page.next, page.next.Some?, done + page.ids, todo[1..])
    ensures done + page.ids + Flatten(todo[1..]) == ids
    ensures RowsAt(table, done + page.ids) == RowsAt(table, done) + RowsAt(table, page.ids)
  {
    ForeignKeyPage(u, table, ids, size, offset, page);
    WalkStep(ids, size, offset, page);
    FlattenOne(ids);
    Advance(page.ids, if page.next.None? then [] else Walk(ids, size, page.next), done, todo, [ids]);
    RowsAtConcat(table, done, page.ids);
  }

  /** A page whose rows do not all decode is part of a listing whose rows do not all decode. */
  lemma PageDecodes(table: map<nat, Entity>, decodes: Entity -> bool, done: seq<nat>, page: seq<nat>, later: seq<nat>, ids: seq<nat>)
    requires done + page + later == ids
    ensures AllDecode(decodes, RowsAt(table, ids)) ==> AllDecode(decodes, RowsAt(table, page))
  {
    RowsAtConcat(table, done + page, later);
    RowsAtConcat(table, done, page);
    if AllDecode(decodes, RowsAt(table, ids)) {
      PartDecodes(decodes, RowsAt(table, done), RowsAt(table, page), RowsAt(table, later), RowsAt(table, ids));
    }
  }

  lemma BothDecode(decodes: Entity -> bool, a: seq<Entity>, b: seq<Entity>)
    requires AllDecode(decodes, a) && AllDecode(decodes, b)
    ensures AllDecode(decodes, a + b)
  {
  }

  lemma FollowedAll(ids: seq<nat>, size: nat, offset: Option<nat>, done: seq<nat>, todo: seq<seq<nat>>)
    requires Following(ids, size, offset, false, done, todo)
    ensures done == ids && todo == []
  {
    assert Flatten(todo) == [] && done + [] == done;
  }

  lemma PartDecodes(decodes: Entity -> bool, before: seq<Entity>, here: seq<Entity>, after: seq<Entity>, all: seq<Entity>)
    requires all == before + here + after && AllDecode(decodes, all)
    ensures AllDecode(decodes, here)
  {
    forall i | 0 <= i < |here|
      ensures decodes(here[i])
    {
      assert here[i] == all[|before| + i];
    }
  }

  lemma AllReferrersStored(u: Uuids, table: map<nat, Entity>, field: string, v: nat, ids: seq<nat>)
    requires Lists(ids, Referrers(u, table, field, v))
    ensures forall i :: 0 <= i < |ids| ==> ids[i] in table
  {
    assert forall i :: 0 <= i < |ids| ==> ids[i] in ids;
  }

  lemma ForeignKeyPage(u: Uuids, table: map<nat, Entity>, ids: seq<nat>, size: nat, offset: Option<nat>, page: Paging.Page)
    requires CarriesIds(u, table) && page == ListPage(ids, offset, size)
    requires forall i :: 0 <= i < |ids| ==> ids[i] in table
    ensures forall rows, next :: Listed(u, table, page, rows, next) ==> next == page.next
  {
    var start := StartOf(ids, offset);
    assert forall i :: 0 <= i < |page.ids| ==> page.ids[i] == ids[start + i];
    RowsAtAll(table, page.ids);
  }

  lemma WalkStep(ids: seq<nat>, size: nat, offset: Option<nat>, page: Paging.Page)
    requires Ascending(ids) && size > 0 && page == ListPage(ids, offset, size)
    ensures Walk(ids, size, offset) == [page.ids] + (if page.next.None? then [] else Walk(ids, size, page.next))
  {
  }

  /** The entity has, for every filter, exactly that text in that field. */
  ghost predicate Passes(filters: Filters, e: Entity) {
    forall field, text :: (field, text) in filters ==> HasText(e, field, text)
  }

  predicate HasText(e: Entity, field: string, text: string) {
    e.Fields? && field in e.fields && e.fields[field] == Text(text)
  }

  ghost function Passing(filters: Filters): Entity -> bool {
    (e: Entity) => Passes(filters, e)
  }

  lemma MatchesAllIsPassing(filters: Filters, e: Entity)
    ensures MatchesAll(filters)(e) <==> Passing(filters)(e)
  {
    if Passes(filters, e) {
      forall i | 0 <= i < |filters|
        ensures TextOf(e, filters[i].0) == Some(filters[i].1)
      {
        assert (filters[i].0, filters[i].1) in filters;
        assert HasText(e, filters[i].0, filters[i].1);
      }
    }
  }

  /** The matching rows in order, without gaps and from the first on; all of them exactly when each
      page's matches lie near, and so always in a table of at most ten pages. */
  ghost predicate SeesMatching(table: map<nat, Entity>, filters: Filters, ids: seq<nat>, size: nat, seen: seq<Entity>)
    requires size > 0
  {
    var matching := Filter(Passing(filters), RowsAt(table, ids));
    && seen <= matching
    && (seen == matching <==> NearFrom(Hits(KeepIn(table, filters), ids, 0, |ids|), size, 0))
    && (|ids| <= 10 * size ==> seen == matching)
  }

  lemma FilteredListingCompleteExactlyWhen(table: map<nat, Entity>, filters: Filters, ids: seq<nat>, size: nat)
    requires Lists(ids, table.Keys) && size > 0 && filters != []
    ensures SeesMatching(table, filters, ids, size, RowsAt(table, Flatten(WalkFor(ids, table, filters, size, None))))
  {
    var keep := KeepIn(table, filters);
    var flat, all := Flatten(FilteredWalk(ids, keep, size, None)), Filter(keep, ids);
    FilteredWalkVisitsAllExactlyWhen(ids, keep, size);
    if |ids| <= 10 * size {
      SmallTablesAreComplete(ids, keep, size);
    }
    assert forall i :: 0 <= i < |ids| ==> ids[i] in ids;
    FilterRowsAt(table, filters, ids);
    forall i | 0 <= i < |RowsAt(table, ids)|
      ensures MatchesAll(filters)(RowsAt(table, ids)[i]) == Passing(filters)(RowsAt(table, ids)[i])
    {
      MatchesAllIsPassing(filters, RowsAt(table, ids)[i]);
    }
    FilterAlike(MatchesAll(filters), Passing(filters), RowsAt(table, ids));
    assert forall i :: 0 <= i < |all| ==> all[i] in all;
    PrefixRows(table, flat, all);
  }

  lemma PrefixRows(table: map<nat, Entity>, a: seq<nat>, b: seq<nat>)
    requires a <= b && forall i :: 0 <= i < |b| ==> b[i] in table
    ensures RowsAt(table, a) <= RowsAt(table, b)
    ensures RowsAt(table, a) == RowsAt(table, b) <==> a == b
  {
    RowsAtAll(table, a);
    RowsAtAll(table, b);
  }

  // ---------------------------------------------------------------- what the indexes promise

  ghost predicate DistinctIds(rows: seq<Row>) {
    forall i, j :: 0 <= i < j < |rows| ==> rows[i].id != rows[j].id
  }

  ghost predicate RowsCarryIds(u: Uuids, rows: seq<Row>) {
    forall i :: 0 <= i < |rows| ==> IdOf(u, rows[i].entity) == Some(rows[i].id)
  }

  /** Objects are stored with their id, given or generated. */
  lemma StoredRowsCarryIds(u: Uuids, generate: nat -> nat, es: seq<Entity>)
    requires RoundTrips(u) && forall i :: 0 <= i < |es| ==> es[i].Fields?
    ensures RowsCarryIds(u, StoredRows(u, generate, es))
  {
  }

  lemma {:induction false} DataOfRows(rows: seq<Row>)
    requires DistinctIds(rows)
    ensures forall x :: x in DataOf(rows) <==> exists i :: 0 <= i < |rows| && rows[i].id == x
    ensures forall i :: 0 <= i < |rows| ==> rows[i].id in DataOf(rows) && DataOf(rows)[rows[i].id] == rows[i].entity
  {
    if rows != [] {
      var front, row := rows[..|rows| - 1], rows[|rows| - 1];
      DataOfRows(front);
      forall x
        ensures x in DataOf(rows) <==> exists i :: 0 <= i < |rows| && rows[i].id == x
      {
        if x in DataOf(front) {
          var i :| 0 <= i < |front| && front[i].id == x;
          assert rows[i].id == x;
        }
        if i :| 0 <= i < |rows| && rows[i].id == x {
          assert i < |front| ==> front[i] == rows[i];
        }
      }
      forall i | 0 <= i < |rows|
        ensures rows[i].id in DataOf(rows) && DataOf(rows)[rows[i].id] == rows[i].entity
      {
        assert i < |front| ==> front[i] == rows[i];
      }
    }
  }

  lemma LoadedTableCarriesIds(u: Uuids, rows: seq<Row>)
    requires DistinctIds(rows) && RowsCarryIds(u, rows)
    ensures CarriesIds(u, DataOf(rows))
  {
    DataOfRows(rows);
  }

  ghost predicate LastKeyed(rows: seq<Row>, field: string, key: string, i: nat) {
    && i < |rows| && TextOf(rows[i].entity, field) == Some(key)
    && forall j :: i < j < |rows| ==> TextOf(rows[j].entity, field) != Some(key)
  }

  ghost predicate NoneKeyed(rows: seq<Row>, field: string, key: string) {
    forall i :: 0 <= i < |rows| ==> TextOf(rows[i].entity, field) != Some(key)
  }

  lemma {:induction false} KeysOfRows(field: string, rows: seq<Row>, key: string) returns (i: nat)
    requires field != ""
    ensures key in KeysOf(field, rows) ==> LastKeyed(rows, field, key, i) && KeysOf(field, rows)[key] == rows[i].id
    ensures key !in KeysOf(field, rows) ==> NoneKeyed(rows, field, key)
  {
    i := 0;
    if rows != [] {
      var front := rows[..|rows| - 1];
      i := KeysOfRows(field, front, key);
      if TextOf(rows[|rows| - 1].entity, field) == Some(key) {
        i := |front|;
      }
    }
  }

  lemma {:induction false} NoKeyField(rows: seq<Row>)
    ensures KeysOf("", rows) == map[]
  {
    if rows != [] {
      NoKeyField(rows[..|rows| - 1]);
    }
  }

  /** Looking a row up by its endpoint key finds the last loaded row with that key, and nothing
      exactly when no row has it or the table has no such key. */
  lemma EndpointKeyFindsLast(store: DblessStore, t: TableName, rows: seq<Row>, key: string) returns (i: nat)
    requires store.Holds(t, rows) && DistinctIds(rows)
    ensures match store.GetEntityByEndpointKey(t, key)
            case Some(e) => EndpointKey(t) != "" && LastKeyed(rows, EndpointKey(t), key, i) && e == rows[i].entity
            case None => EndpointKey(t) == "" || NoneKeyed(rows, EndpointKey(t), key)
  {
    i := 0;
    if EndpointKey(t) == "" {
      NoKeyField(rows);
    } else {
      i := KeysOfRows(EndpointKey(t), rows, key);
      DataOfRows(rows);
    }
  }

  /** The rows of the table that refer to v. */
  ghost function Referrers(u: Uuids, table: map<nat, Entity>, field: string, v: nat): set<nat> {
    set id | id in table && RefOf(u, table[id], field) == Some(v)
  }

  lemma {:induction false} RefsAreReferrers(u: Uuids, field: string, v: nat, rows: seq<Row>)
    requires DistinctIds(rows) && RowsCarryIds(u, rows)
    ensures NoDuplicates(RefsOf(u, field, v, rows))
    ensures forall x: nat :: x in RefsOf(u, field, v, rows) <==> x in Referrers(u, DataOf(rows), field, v)
  {
    if rows != [] {
      var front, row := rows[..|rows| - 1], rows[|rows| - 1];
      RefsAreReferrers(u, field, v, front);
      DataOfRows(front);
      assert row.id !in DataOf(front);
      assert row.id !in RefsOf(u, field, v, front);
      assert forall i :: 0 <= i < |RefsOf(u, field, v, front)| ==> RefsOf(u, field, v, front)[i] in RefsOf(u, field, v, front);
    }
  }

  /** Listing by foreign key goes through the index and is the same as filtering the table by the
      reference and sorting: every referring row once, in ascending order, and no other. */
  lemma ForeignKeyListsReferrers(store: DblessStore, t: TableName, rows: seq<Row>, field: string, v: nat)
    requires store.Holds(t, rows) && DistinctIds(rows) && RowsCarryIds(store.uuids, rows) && field in ForeignKeyFields(t)
    ensures Lists(Sort(AtMost, Refs(store.foreignKeys, t, field, v)), Referrers(store.uuids, store.TableOf(t), field, v))
  {
    RefsAreReferrers(store.uuids, field, v, rows);
    SortAscends(RefsOf(store.uuids, field, v, rows));
  }
}
