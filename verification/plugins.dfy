/** `GenericIEPluginManager<Data>`: the registry of import/export plugins for
    one data type. Its only state is the static pointer `pluginTable_`, which
    is either null or points to a `std::map` from plugin name to plugin; here
    that pointer is an explicit `Option` value threaded through the
    operations. The lock that guards it is not modelled. */
module IEPlugins {
  import opened Wrappers
  import StringOrder

  /** The registry state for plugins of type `P`. */
  datatype Manager<P> = Manager(table: Option<map<string, P>>)

  /** Program start: `pluginTable_ = 0`. */
  function Initial<P>(): (m: Manager<P>)
    ensures m.table.None?
  {
    Manager(None)
  }

  /** `createMap`: allocates an empty table only when there is none. */
  function CreateMap<P>(m: Manager<P>): (r: Manager<P>)
    ensures r.table.Some?
    ensures m.table.Some? ==> r == m
    ensures m.table.None? ==> r.table.value == map[]
  {
    if m.table.None? then Manager(Some(map[])) else m
  }

  lemma CreateMapIdempotent<P>(m: Manager<P>)
    ensures CreateMap(CreateMap(m)) == CreateMap(m)
  {
  }

  /** `getMap`: the table, created on first use. Returns the new state and the
      table the returned reference designates. */
  function GetMap<P>(m: Manager<P>): (r: (Manager<P>, map<string, P>))
    ensures r.0.table == Some(r.1)
    ensures m.table.Some? ==> r.0 == m && r.1 == m.table.value
    ensures m.table.None? ==> r.1 == map[]
  {
    var m' := CreateMap(m);
    (m', m'.table.value)
  }

  /** A plugin registering itself by writing through the reference `getMap`
      returns: `getMap()[name] = plugin`. */
  function Register<P>(m: Manager<P>, name: string, plugin: P): (r: Manager<P>)
    ensures r.table.Some?
    ensures GetPlugin(r, name) == Some(plugin)
    ensures forall other :: other != name ==> GetPlugin(r, other) == GetPlugin(m, other)
    ensures NumPlugins(r) == if GetPlugin(m, name).Some? then NumPlugins(m) else NumPlugins(m) + 1
  {
    var (m', t) := GetMap(m);
    Manager(Some(t[name := plugin]))
  }

  /** `numPlugins`. */
  function NumPlugins<P>(m: Manager<P>): (n: nat)
    ensures m.table.None? ==> n == 0
    ensures m.table.Some? ==> n == |m.table.value|
  {
    match m.table
    case None => 0
    case Some(t) => |t|
  }

  /** `get_importer_list`: appends every registered name, in the map's
      ascending key order, after the caller's `results`. */
  function ImporterList<P>(m: Manager<P>, results: seq<string>): (r: seq<string>)
    ensures m.table.None? ==> r == results
    ensures m.table.Some? ==>
      && |r| == |results| + |m.table.value|
      && r[..|results|] == results
      && StringOrder.StrictlyAscending(r[|results|..])
      && forall x :: x in r[|results|..] <==> x in m.table.value
  {
    match m.table
    case None => results
    case Some(t) => results + StringOrder.SortedKeys(t.Keys)
  }

  /** `get_exporter_list`: the same loop over the same table. */
  function ExporterList<P>(m: Manager<P>, results: seq<string>): (r: seq<string>)
    ensures m.table.None? ==> r == results
    ensures m.table.Some? ==>
      && |r| == |results| + |m.table.value|
      && r[..|results|] == results
      && StringOrder.StrictlyAscending(r[|results|..])
      && forall x :: x in r[|results|..] <==> x in m.table.value
  {
    match m.table
    case None => results
    case Some(t) => results + StringOrder.SortedKeys(t.Keys)
  }

  /** Both listings name the same plugins in the same order, one per
      registered plugin. */
  lemma ListsAgree<P>(m: Manager<P>, results: seq<string>)
    ensures ImporterList(m, results) == ExporterList(m, results)
    ensures |ImporterList(m, results)| == |results| + NumPlugins(m)
  {
    if m.table.Some? {
      var n := |results|;
      StringOrder.AscendingUnique(ImporterList(m, results)[n..], ExporterList(m, results)[n..]);
      assert ImporterList(m, results) == results + ImporterList(m, results)[n..];
      assert ExporterList(m, results) == results + ExporterList(m, results)[n..];
    }
  }

  /** `get_plugin`: null without a table or for an unknown name, otherwise
      the registered plugin. */
  function GetPlugin<P>(m: Manager<P>, name: string): (r: Option<P>)
    ensures r.Some? <==> m.table.Some? && name in m.table.value
    ensures r.Some? ==> r.value == m.table.value[name]
  {
    match m.table
    case None => None
    case Some(t) => if name in t then Some(t[name]) else None
  }

  /** `destroyMap`: back to the null pointer. */
  function DestroyMap<P>(m: Manager<P>): (r: Manager<P>)
    ensures r.table.None?
  {
    Manager(None)
  }

  /** After `destroyMap` the registry is empty: no plugins, every lookup null,
      listings add nothing. */
  lemma DestroyedRegistryIsEmpty<P>(m: Manager<P>, name: string, results: seq<string>)
    ensures NumPlugins(DestroyMap(m)) == 0
    ensures GetPlugin(DestroyMap(m), name) == None
    ensures ImporterList(DestroyMap(m), results) == results
    ensures ExporterList(DestroyMap(m), results) == results
  {
  }

  /** `operator==` delegates to the plugins' own `equals`. */
  function Equal<P>(lhs: P, rhs: P, equals: (P, P) -> bool): (r: bool)
    ensures r == equals(lhs, rhs)
  {
    equals(lhs, rhs)
  }

  /** `operator!=` is the negation of `operator==`. */
  function NotEqual<P>(lhs: P, rhs: P, equals: (P, P) -> bool): (r: bool)
    ensures r <==> !equals(lhs, rhs)
  {
    !Equal(lhs, rhs, equals)
  }
}
