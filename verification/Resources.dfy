/** SystemResources: the registry of resources, and loading one together with what it depends on.
    Factories are the environment: any functions of the registry as it is when they are called. */
module Resources {
  import opened Wrappers

  type ResourceId = nat
  type ResourceType = nat
  /** Stands for what a factory made. */
  type Resource = nat

  datatype State = NotLoaded | Loading | Loaded
  datatype Source = NoSource | Disk | App

  datatype Metadata = Metadata(kind: ResourceType, state: State, source: Source, resource: Option<Resource>,
                               dependencies: seq<ResourceId>)

  type Registry = map<ResourceId, Metadata>

  /** Never null: the source asserts it. */
  type FactoryFunc = (Registry, ResourceId) -> Resource
  type Factories = map<ResourceType, FactoryFunc>

  /** A factory call, and the registry it saw. */
  datatype Call = Call(id: ResourceId, seen: Registry)

  // ---------------------------------------------------------------------------
  // The dependency graph

  /** What is loaded has what it depends on. */
  ghost predicate Closed(m: Registry) {
    forall id, d :: id in m && m[id].state.Loaded? && d in m[id].dependencies ==> d in m && m[d].state.Loaded?
  }

  /** Along dependencies, only through resources that are not loaded. */
  ghost predicate Path(m: Registry, p: seq<ResourceId>) {
    && p != []
    && (forall i :: 0 <= i < |p| ==> p[i] in m && m[p[i]].state.NotLoaded?)
    && forall i :: 0 < i < |p| ==> p[i] in m[p[i - 1]].dependencies
  }

  ghost predicate PathFrom(m: Registry, p: seq<ResourceId>, id: ResourceId, x: ResourceId) {
    Path(m, p) && p[0] == id && p[|p| - 1] == x
  }

  /** Loading id has to load x. */
  ghost predicate Needed(m: Registry, id: ResourceId, x: ResourceId) {
    exists p :: PathFrom(m, p, id, x)
  }

  /** Every dependency that loading id comes to is registered. */
  ghost predicate Registered(m: Registry, id: ResourceId) {
    id in m && forall x, d :: Needed(m, id, x) && x in m && d in m[x].dependencies ==> d in m
  }

  /** A rank that falls along every dependency that is still to be loaded. */
  ghost predicate Acyclic(m: Registry, id: ResourceId, rank: ResourceId -> nat) {
    forall x, d :: Needed(m, id, x) && x in m && d in m[x].dependencies && d in m && m[d].state.NotLoaded?
                   ==> rank(d) < rank(x)
  }

  ghost predicate Makes(f: Factories, m: Registry, x: ResourceId) {
    x in m && m[x].kind in f
  }

  /** Some dependency among the first n has to load x. */
  ghost predicate NeededBy(m: Registry, deps: seq<ResourceId>, n: nat, x: ResourceId)
    requires n <= |deps|
  {
    exists j :: 0 <= j < n && Needed(m, deps[j], x)
  }

  /** b is a with exactly the resources of `which` loaded, and nothing else changed. */
  ghost predicate LoadedIn(a: Registry, b: Registry, f: Factories, which: iset<ResourceId>) {
    && b.Keys == a.Keys
    && forall x :: x in a ==>
         if x in which && Makes(f, a, x)
         then b[x] == a[x].(state := Loaded, resource := b[x].resource) && b[x].resource.Some?
         else b[x] == a[x]
  }

  ghost function AllNeeded(m: Registry, id: ResourceId): iset<ResourceId> {
    iset x | Needed(m, id, x)
  }

  ghost function NeededByFirst(m: Registry, deps: seq<ResourceId>, n: nat): iset<ResourceId>
    requires n <= |deps|
  {
    iset x | NeededBy(m, deps, n, x)
  }

  lemma PathJoin(m: Registry, p: seq<ResourceId>, q: seq<ResourceId>)
    requires Path(m, p) && Path(m, q) && p[|p| - 1] == q[0]
    ensures Path(m, p + q[1..])
  {
    var r := p + q[1..];
    forall i | 0 < i < |r|
      ensures r[i] in m[r[i - 1]].dependencies
    {
      if i >= |p| { assert r[i] == q[i - |p| + 1] && r[i - 1] == q[i - |p|]; }
    }
  }

  lemma NeededTransitive(m: Registry, a: ResourceId, b: ResourceId, c: ResourceId)
    requires Needed(m, a, b) && Needed(m, b, c)
    ensures Needed(m, a, c)
  {
    var p :| PathFrom(m, p, a, b);
    var q :| PathFrom(m, q, b, c);
    PathJoin(m, p, q);
    assert PathFrom(m, p + q[1..], a, c);
  }

  /** What id needs is itself and what its dependencies need. */
  lemma NeededStep(m: Registry, id: ResourceId, x: ResourceId)
    requires id in m
    ensures Needed(m, id, x) <==>
      m[id].state.NotLoaded? && (x == id || NeededBy(m, m[id].dependencies, |m[id].dependencies|, x))
  {
    var deps := m[id].dependencies;
    if Needed(m, id, x) {
      var p :| PathFrom(m, p, id, x);
      if |p| > 1 {
        assert p[1] in m[p[0]].dependencies;
        var j :| 0 <= j < |deps| && deps[j] == p[1];
        assert PathFrom(m, p[1..], deps[j], x);
      }
    }
    if m[id].state.NotLoaded? {
      assert PathFrom(m, [id], id, id);
      if NeededBy(m, deps, |deps|, x) {
        var j :| 0 <= j < |deps| && Needed(m, deps[j], x);
        var q :| PathFrom(m, q, deps[j], x);
        assert PathFrom(m, [id] + q, id, x);
      }
    }
  }

  /** Needed resources have lower ranks. */
  lemma {:induction false} PathFalls(m: Registry, p: seq<ResourceId>, rank: ResourceId -> nat)
    requires Path(m, p) && Acyclic(m, p[0], rank)
    ensures rank(p[|p| - 1]) <= rank(p[0])
    decreases |p|
  {
    if |p| > 1 {
      assert PathFrom(m, [p[0]], p[0], p[0]);
      assert p[1] in m[p[0]].dependencies;
      assert p[1..][|p| - 2] == p[|p| - 1];
      AcyclicBelow(m, p[0], p[1], rank);
      PathFalls(m, p[1..], rank);
    }
  }

  /** What holds from a resource on holds from each of its dependencies on. */
  lemma AcyclicBelow(m: Registry, id: ResourceId, d: ResourceId, rank: ResourceId -> nat)
    requires id in m && m[id].state.NotLoaded? && d in m[id].dependencies
    ensures Acyclic(m, id, rank) ==> Acyclic(m, d, rank)
    ensures Registered(m, id) ==> Registered(m, d)
    ensures forall x :: Needed(m, d, x) ==> Needed(m, id, x)
  {
    hide Needed;
    forall x | Needed(m, d, x) ensures Needed(m, id, x) {
      NeededThrough(m, id, d, x);
    }
    NeededThrough(m, id, id, id);
  }

  lemma NeededThrough(m: Registry, id: ResourceId, d: ResourceId, x: ResourceId)
    requires id in m && m[id].state.NotLoaded?
    ensures d in m[id].dependencies && Needed(m, d, x) ==> Needed(m, id, x)
    ensures Needed(m, id, id)
  {
    assert PathFrom(m, [id], id, id);
    if d in m[id].dependencies && Needed(m, d, x) {
      var q :| PathFrom(m, q, d, x);
      assert PathFrom(m, [id] + q, id, x);
    }
  }

  lemma NeededIsNotLoaded(m: Registry, id: ResourceId, x: ResourceId)
    ensures Needed(m, id, x) ==> x in m && m[x].state.NotLoaded?
  {
    if Needed(m, id, x) {
      var p :| PathFrom(m, p, id, x);
      assert m[p[|p| - 1]].state.NotLoaded?;
    }
  }

  lemma NeededFalls(m: Registry, id: ResourceId, x: ResourceId, rank: ResourceId -> nat)
    requires Needed(m, id, x) && Acyclic(m, id, rank)
    ensures rank(x) <= rank(id) && x in m && m[x].state.NotLoaded?
  {
    var p :| PathFrom(m, p, id, x);
    PathFalls(m, p, rank);
  }

  /** A path that leaves the loaded part alone is a path of the new registry. */
  lemma PathKept(a: Registry, b: Registry, f: Factories, which: iset<ResourceId>, p: seq<ResourceId>)
    requires LoadedIn(a, b, f, which) && Path(a, p)
    requires forall i :: 0 <= i < |p| ==> !(p[i] in which && Makes(f, a, p[i]))
    ensures Path(b, p)
  {
    forall i | 0 <= i < |p| ensures b[p[i]] == a[p[i]] { assert p[i] in a; }
  }

  lemma PathWas(a: Registry, b: Registry, f: Factories, which: iset<ResourceId>, p: seq<ResourceId>)
    requires LoadedIn(a, b, f, which) && Path(b, p)
    ensures Path(a, p)
  {
    forall i | 0 <= i < |p| ensures p[i] in a && a[p[i]].state.NotLoaded? && b[p[i]] == a[p[i]] {
      assert p[i] in b;
    }
  }

  /** After the first n dependencies, the next one needs what it needed at first, up to what is already
      loaded. */
  lemma NeededNext(a: Registry, b: Registry, f: Factories, deps: seq<ResourceId>, n: nat, x: ResourceId)
    requires n < |deps| && LoadedIn(a, b, f, NeededByFirst(a, deps, n)) && Makes(f, a, x)
    ensures NeededBy(a, deps, n + 1, x) <==> NeededBy(a, deps, n, x) || Needed(b, deps[n], x)
  {
    hide LoadedIn, Needed;
    if Needed(b, deps[n], x) { NeededWas(a, b, f, NeededByFirst(a, deps, n), deps[n], x); }
    if Needed(a, deps[n], x) && !NeededBy(a, deps, n, x) { NeededStill(a, b, f, deps, n, x); }
  }

  lemma NeededWas(a: Registry, b: Registry, f: Factories, which: iset<ResourceId>, id: ResourceId, x: ResourceId)
    requires LoadedIn(a, b, f, which) && Needed(b, id, x)
    ensures Needed(a, id, x)
  {
    var p :| PathFrom(b, p, id, x);
    PathWas(a, b, f, which, p);
    assert PathFrom(a, p, id, x);
  }

  lemma NeededStill(a: Registry, b: Registry, f: Factories, deps: seq<ResourceId>, n: nat, x: ResourceId)
    requires n < |deps| && LoadedIn(a, b, f, NeededByFirst(a, deps, n)) && Makes(f, a, x)
    requires Needed(a, deps[n], x) && !NeededBy(a, deps, n, x)
    ensures Needed(b, deps[n], x)
  {
    hide LoadedIn;
    var p :| PathFrom(a, p, deps[n], x);
    forall i | 0 <= i < |p|
      ensures !NeededBy(a, deps, n, p[i])
    {
      if NeededBy(a, deps, n, p[i]) {
        var j :| 0 <= j < n && Needed(a, deps[j], p[i]);
        assert PathFrom(a, p[i..], p[i], x);
        NeededTransitive(a, deps[j], p[i], x);
      }
    }
    PathKept(a, b, f, NeededByFirst(a, deps, n), p);
    assert PathFrom(b, p, deps[n], x);
  }

  /** Loading the dependencies one after the other loads what any of them needs. */
  lemma LoadedNext(a: Registry, b: Registry, c: Registry, f: Factories, deps: seq<ResourceId>, n: nat)
    requires n < |deps| && LoadedIn(a, b, f, NeededByFirst(a, deps, n)) && LoadedIn(b, c, f, AllNeeded(b, deps[n]))
    ensures LoadedIn(a, c, f, NeededByFirst(a, deps, n + 1))
  {
    forall x | x in a
      ensures if x in NeededByFirst(a, deps, n + 1) && Makes(f, a, x)
        then c[x] == a[x].(state := Loaded, resource := c[x].resource) && c[x].resource.Some?
        else c[x] == a[x]
    {
      if Makes(f, a, x) { NeededNext(a, b, f, deps, n, x); }
    }
  }

  // ---------------------------------------------------------------------------
  // The factory calls

  /** When the factory of call.id runs, each dependency that has a factory is loaded (or is just now being
      loaded by someone else). */
  ghost predicate Ready(a: Registry, f: Factories, call: Call) {
    && call.id in a && call.seen.Keys == a.Keys
    && forall d :: d in a[call.id].dependencies && Makes(f, a, d) ==> call.seen[d].state.Loaded? || a[d].state.Loading?
  }

  ghost predicate CalledFor(calls: seq<Call>, x: ResourceId) {
    exists i :: 0 <= i < |calls| && calls[i].id == x
  }

  ghost predicate MadeBy(a: Registry, b: Registry, f: Factories, call: Call) {
    && Makes(f, a, call.id) && Ready(a, f, call) && call.id in b
    && b[call.id].resource == Some(f[a[call.id].kind](call.seen, call.id))
  }

  ghost predicate NoneTwice(calls: seq<Call>) {
    forall i, j :: 0 <= i < j < |calls| ==> calls[i].id != calls[j].id
  }

  /** One call for each resource loaded, each with its dependencies in place, and its result kept. */
  ghost predicate Made(a: Registry, b: Registry, f: Factories, calls: seq<Call>, which: iset<ResourceId>) {
    && NoneTwice(calls)
    && (forall i :: 0 <= i < |calls| ==> MadeBy(a, b, f, calls[i]))
    && forall x :: CalledFor(calls, x) <==> x in which && Makes(f, a, x)
  }

  lemma MadeNext(a: Registry, b: Registry, c: Registry, f: Factories, deps: seq<ResourceId>, n: nat, early: seq<Call>, late: seq<Call>)
    requires n < |deps| && LoadedIn(a, b, f, NeededByFirst(a, deps, n)) && LoadedIn(b, c, f, AllNeeded(b, deps[n]))
    requires Made(a, b, f, early, NeededByFirst(a, deps, n)) && Made(b, c, f, late, AllNeeded(b, deps[n]))
    ensures Made(a, c, f, early + late, NeededByFirst(a, deps, n + 1))
  {
    hide LoadedIn, MadeBy, NeededBy, Needed, CalledFor, Ready, Makes;
    var calls := early + late;
    forall i | 0 <= i < |late|
      ensures MadeBy(a, c, f, late[i]) && !CalledFor(early, late[i].id)
    {
      LateCall(a, b, c, f, deps, n, late, i);
    }
    forall i | 0 <= i < |early|
      ensures MadeBy(a, c, f, early[i])
    {
      EarlyCall(a, b, c, f, deps, n, early, i);
    }
    forall i, j | 0 <= i < j < |calls|
      ensures calls[i].id != calls[j].id
    {
      if i < |early| <= j { Called(early, i); assert !CalledFor(early, late[j - |early|].id); }
    }
    forall x
      ensures CalledFor(calls, x) <==> x in NeededByFirst(a, deps, n + 1) && Makes(f, a, x)
    {
      CalledForJoin(early, late, x);
      SameMakes(a, b, f, NeededByFirst(a, deps, n), x);
      if Makes(f, a, x) { NeededNext(a, b, f, deps, n, x); }
    }
  }

  lemma SameMakes(a: Registry, b: Registry, f: Factories, which: iset<ResourceId>, x: ResourceId)
    requires LoadedIn(a, b, f, which)
    ensures Makes(f, a, x) <==> Makes(f, b, x)
  {
  }

  lemma Called(calls: seq<Call>, i: nat)
    requires i < |calls|
    ensures CalledFor(calls, calls[i].id)
  {
  }

  lemma CalledForJoin(early: seq<Call>, late: seq<Call>, x: ResourceId)
    ensures CalledFor(early + late, x) <==> CalledFor(early, x) || CalledFor(late, x)
  {
    var calls := early + late;
    if CalledFor(early, x) {
      var i :| 0 <= i < |early| && early[i].id == x;
      assert calls[i].id == x;
    }
    if CalledFor(late, x) {
      var i :| 0 <= i < |late| && late[i].id == x;
      assert calls[|early| + i].id == x;
    }
  }

  lemma LateCall(a: Registry, b: Registry, c: Registry, f: Factories, deps: seq<ResourceId>, n: nat, late: seq<Call>, i: nat)
    requires n < |deps| && LoadedIn(a, b, f, NeededByFirst(a, deps, n)) && LoadedIn(b, c, f, AllNeeded(b, deps[n]))
    requires Made(b, c, f, late, AllNeeded(b, deps[n])) && i < |late|
    ensures MadeBy(a, c, f, late[i]) && !(late[i].id in NeededByFirst(a, deps, n) && Makes(f, a, late[i].id))
  {
    var x := late[i].id;
    assert MadeBy(b, c, f, late[i]);
    assert CalledFor(late, x);
    NeededIsNotLoaded(b, deps[n], x);
    forall d | d in a[x].dependencies && Makes(f, a, d)
      ensures late[i].seen[d].state.Loaded? || a[d].state.Loading?
    {
      assert b[x].dependencies == a[x].dependencies;
      assert Makes(f, b, d);
    }
  }

  lemma EarlyCall(a: Registry, b: Registry, c: Registry, f: Factories, deps: seq<ResourceId>, n: nat, early: seq<Call>, i: nat)
    requires n < |deps| && LoadedIn(a, b, f, NeededByFirst(a, deps, n)) && LoadedIn(b, c, f, AllNeeded(b, deps[n]))
    requires Made(a, b, f, early, NeededByFirst(a, deps, n)) && i < |early|
    ensures MadeBy(a, c, f, early[i])
  {
    var x := early[i].id;
    assert MadeBy(a, b, f, early[i]);
    assert CalledFor(early, x);
    NeededIsNotLoaded(b, deps[n], x);
  }

  // ---------------------------------------------------------------------------

  class SystemResources {
    var factoryFuncMap: Factories
    var metadataMap: Registry
    ghost var calls: seq<Call>

    constructor ()
      ensures metadataMap == map[] && factoryFuncMap == map[] && calls == []
    {
      metadataMap, factoryFuncMap, calls := map[], map[], [];
    }

    /** SystemResources::load. It loads exactly the resources that are not loaded and can be reached through
        such resources, those without a factory excepted; every factory is called once, after those of
        its dependencies. */
    method Load(id: ResourceId, ghost rank: ResourceId -> nat)
      requires Registered(metadataMap, id) && Acyclic(metadataMap, id, rank)
      modifies `metadataMap, `calls
      ensures LoadedIn(old(metadataMap), metadataMap, factoryFuncMap, AllNeeded(old(metadataMap), id))
      ensures |old(calls)| <= |calls| && calls[..|old(calls)|] == old(calls)
      ensures Made(old(metadataMap), metadataMap, factoryFuncMap, calls[|old(calls)|..], AllNeeded(old(metadataMap), id))
      decreases if id in metadataMap && metadataMap[id].state.NotLoaded? then rank(id) + 1 else 0
    {
      hide LoadedIn, Made, Needed, NeededBy;
      ghost var a, before := metadataMap, calls;
      var metadata := metadataMap[id];
      if !metadata.state.NotLoaded? {
        NothingNeeded(a, id, factoryFuncMap);
        assert calls[|before|..] == [];
        return;
      }
      var deps := metadata.dependencies;
      var i := 0;
      NothingYet(a, deps, factoryFuncMap);
      assert calls[|before|..] == [];
      while i < |deps|
        invariant 0 <= i <= |deps| && factoryFuncMap == old(factoryFuncMap)
        invariant LoadedIn(a, metadataMap, factoryFuncMap, NeededByFirst(a, deps, i))
        invariant |before| <= |calls| && calls[..|before|] == before
        invariant Made(a, metadataMap, factoryFuncMap, calls[|before|..], NeededByFirst(a, deps, i))
      {
        NextDependency(a, metadataMap, factoryFuncMap, id, i, rank);
        ghost var b, early := metadataMap, calls;
        Load(deps[i], rank);
        LoadedNext(a, b, metadataMap, factoryFuncMap, deps, i);
        MadeNext(a, b, metadataMap, factoryFuncMap, deps, i, early[|before|..], calls[|early|..]);
        assert calls == early + calls[|early|..];
        assert calls[|before|..] == early[|before|..] + calls[|early|..];
        i := i + 1;
      }
      NotItself(a, metadataMap, factoryFuncMap, id, rank);
      if metadata.kind !in factoryFuncMap {
        NoFactory(a, metadataMap, factoryFuncMap, id, calls[|before|..]);
        return;
      }
      ghost var b, early := metadataMap, calls;
      CallFactory(id);
      LoadedItself(a, b, factoryFuncMap, id, early[|before|..], rank);
      assert calls[|before|..] == early[|before|..] + [Call(id, b[id := b[id].(state := Loading)])];
    }

    /** The end of load: the factory sees the resource as being loaded. */
    method CallFactory(id: ResourceId)
      requires id in metadataMap && metadataMap[id].kind in factoryFuncMap
      modifies `metadataMap, `calls
      ensures var m := old(metadataMap);
        var seen := m[id := m[id].(state := Loading)];
        && calls == old(calls) + [Call(id, seen)]
        && metadataMap == m[id := m[id].(state := Loaded, resource := Some(factoryFuncMap[m[id].kind](seen, id)))]
    {
      metadataMap := metadataMap[id := metadataMap[id].(state := Loading)];
      var resource := factoryFuncMap[metadataMap[id].kind](metadataMap, id);
      calls := calls + [Call(id, metadataMap)];
      metadataMap := metadataMap[id := metadataMap[id].(resource := Some(resource))];
      metadataMap := metadataMap[id := metadataMap[id].(state := Loaded)];
    }

    /** SystemResources::add_resource: the resource is there from now on, whatever was known of it. */
    method AddResource(id: ResourceId, resource: Resource)
      modifies `metadataMap
      ensures metadataMap == Added(old(metadataMap), id, resource)
      ensures metadataMap.Keys == old(metadataMap).Keys + {id}
      ensures forall x :: x in old(metadataMap) && x != id ==> metadataMap[x] == old(metadataMap)[x]
      ensures metadataMap[id].state.Loaded? && metadataMap[id].source.App? && metadataMap[id].resource == Some(resource)
      ensures if id in old(metadataMap)
        then metadataMap[id].kind == old(metadataMap)[id].kind && metadataMap[id].dependencies == old(metadataMap)[id].dependencies
        else metadataMap[id].dependencies == []
    {
      if id !in metadataMap {
        metadataMap := metadataMap[id := Metadata(0, NotLoaded, NoSource, None, [])];
      }
      metadataMap := metadataMap[id := metadataMap[id].(state := Loaded, source := App, resource := Some(resource))];
    }

    /** SystemResources::unload; an unknown id is an exception. */
    method Unload(id: ResourceId) returns (found: bool)
      modifies `metadataMap
      ensures found <==> id in old(metadataMap)
      ensures metadataMap == if found then Unloaded(old(metadataMap), id) else old(metadataMap)
      ensures metadataMap.Keys == old(metadataMap).Keys
      ensures forall x :: x in old(metadataMap) && x != id ==> metadataMap[x] == old(metadataMap)[x]
      ensures found ==> metadataMap[id].state.NotLoaded? && metadataMap[id].resource.None?
      ensures found ==> var was, now := old(metadataMap)[id], metadataMap[id];
        now.kind == was.kind && now.source == was.source && now.dependencies == was.dependencies
    {
      if id !in metadataMap {
        return false;
      }
      metadataMap := metadataMap[id := metadataMap[id].(state := NotLoaded)];
      metadataMap := metadataMap[id := metadataMap[id].(resource := None)];
      found := true;
    }
  }

  function Added(m: Registry, id: ResourceId, resource: Resource): Registry {
    var known := if id in m then m[id] else Metadata(0, NotLoaded, NoSource, None, []);
    m[id := known.(state := Loaded, source := App, resource := Some(resource))]
  }

  function Unloaded(m: Registry, id: ResourceId): Registry
    requires id in m
  {
    m[id := m[id].(state := NotLoaded, resource := None)]
  }

  // ---------------------------------------------------------------------------
  // What the operations do to closure

  ghost predicate Settled(m: Registry) {
    forall x :: x in m ==> !m[x].state.Loading?
  }

  /** No resource that is loaded now was waiting for one that has no factory. */
  ghost predicate NoneMissing(m: Registry, f: Factories, id: ResourceId) {
    forall y, d :: Needed(m, id, y) && Makes(f, m, y) && d in m[y].dependencies && d in m && m[d].state.NotLoaded?
                   ==> Makes(f, m, d)
  }

  /** The resource is what its factory returned, when its dependencies had already been loaded. */
  ghost predicate FromFactory(a: Registry, f: Factories, call: Call, x: ResourceId, resource: Option<Resource>)
    requires x in a && a[x].kind in f
  {
    && call.id == x && resource == Some(f[a[x].kind](call.seen, x))
    && forall d :: d in a[x].dependencies && d in a && a[d].kind in f
         ==> d in call.seen && (call.seen[d].state.Loaded? || a[d].state.Loading?)
  }

  /** What Load makes of a resource: what its factory has returned; its kind, its source and its
      dependencies stay. What was not to be loaded stays altogether. */
  lemma LoadResult(a: Registry, b: Registry, f: Factories, calls: seq<Call>, id: ResourceId, x: ResourceId)
    requires LoadedIn(a, b, f, AllNeeded(a, id)) && Made(a, b, f, calls, AllNeeded(a, id)) && x in a
    ensures x in b && b[x].kind == a[x].kind && b[x].source == a[x].source && b[x].dependencies == a[x].dependencies
    ensures if Needed(a, id, x) && a[x].kind in f
      then b[x].state.Loaded? && exists i :: 0 <= i < |calls| && FromFactory(a, f, calls[i], x, b[x].resource)
      else b[x] == a[x]
  {
    hide Needed, MadeBy, NoneTwice, FromFactory;
    if Needed(a, id, x) && a[x].kind in f {
      assert CalledFor(calls, x);
      var i :| 0 <= i < |calls| && calls[i].id == x;
      CallResult(a, b, f, calls[i]);
    }
  }

  lemma CallResult(a: Registry, b: Registry, f: Factories, call: Call)
    requires MadeBy(a, b, f, call)
    ensures call.id in a && a[call.id].kind in f && call.id in b
    ensures FromFactory(a, f, call, call.id, b[call.id].resource)
  {
  }

  /** Loading keeps what is loaded closed under dependencies, except when a factory is missing for a
      resource that something with a factory depends on. */
  lemma LoadClosedIff(a: Registry, b: Registry, f: Factories, id: ResourceId)
    requires Registered(a, id) && Settled(a) && Closed(a) && LoadedIn(a, b, f, AllNeeded(a, id))
    ensures Closed(b) <==> NoneMissing(a, f, id)
  {
    hide Needed;
    if Closed(b) {
      forall y, d | Needed(a, id, y) && Makes(f, a, y) && d in a[y].dependencies && d in a && a[d].state.NotLoaded?
        ensures Makes(f, a, d)
      {
        assert b[y].state.Loaded? && d in b[y].dependencies;
      }
    }
    if NoneMissing(a, f, id) {
      forall y, d | y in b && b[y].state.Loaded? && d in b[y].dependencies
        ensures d in b && b[d].state.Loaded?
      {
        assert d in a[y].dependencies;
        if Needed(a, id, y) && Makes(f, a, y) && a[d].state.NotLoaded? {
          NeededOfDependency(a, id, y, d);
        }
      }
    }
  }

  lemma NeededOfDependency(m: Registry, id: ResourceId, y: ResourceId, d: ResourceId)
    requires Needed(m, id, y) && d in m && m[d].state.NotLoaded? && y in m && d in m[y].dependencies
    ensures Needed(m, id, d)
  {
    NeededIsNotLoaded(m, id, y);
    var p :| PathFrom(m, p, id, y);
    assert PathFrom(m, p + [d], id, d);
  }

  /** With every factory there, the resource is loaded after Load, and so is all it depends on. */
  lemma LoadedAfterwards(a: Registry, b: Registry, f: Factories, id: ResourceId)
    requires Registered(a, id) && Settled(a) && Closed(a) && LoadedIn(a, b, f, AllNeeded(a, id)) && id in a
    requires forall x :: x in a ==> Makes(f, a, x)
    ensures b[id].state.Loaded? && Settled(b) && Closed(b)
  {
    NeededStep(a, id, id);
    LoadClosedIff(a, b, f, id);
  }

  /** A resource may be added without breaking closure exactly when its own dependencies are loaded. */
  lemma AddClosedIff(m: Registry, id: ResourceId, resource: Resource)
    requires Closed(m)
    ensures var n := Added(m, id, resource);
      Closed(n) <==> forall d :: d in n[id].dependencies ==> d in n && n[d].state.Loaded?
  {
    var n := Added(m, id, resource);
    forall x | x in n && x != id ensures x in m && n[x] == m[x] {}
    if forall d :: d in n[id].dependencies ==> d in n && n[d].state.Loaded? {
      forall y, d | y in n && n[y].state.Loaded? && d in n[y].dependencies
        ensures d in n && n[d].state.Loaded?
      {
        if y != id { assert d in m[y].dependencies; }
      }
    }
  }

  /** Unloading keeps closure exactly when nothing else that is loaded depends on the resource. */
  lemma UnloadClosedIff(m: Registry, id: ResourceId)
    requires Closed(m) && id in m
    ensures Closed(Unloaded(m, id)) <==>
      forall y :: y in m && y != id && m[y].state.Loaded? ==> id !in m[y].dependencies
  {
    var n := Unloaded(m, id);
    forall x | x in m && x != id ensures n[x] == m[x] {}
    if forall y :: y in m && y != id && m[y].state.Loaded? ==> id !in m[y].dependencies {
      forall y, d | y in n && n[y].state.Loaded? && d in n[y].dependencies
        ensures d in n && n[d].state.Loaded?
      {
        assert y != id && d in m[y].dependencies;
      }
    }
    if Closed(n) {
      forall y | y in m && y != id && m[y].state.Loaded?
        ensures id !in m[y].dependencies
      {
        assert n[y].state.Loaded? && !n[id].state.Loaded?;
      }
    }
  }

  lemma NothingNeeded(m: Registry, id: ResourceId, f: Factories)
    requires id in m && !m[id].state.NotLoaded?
    ensures LoadedIn(m, m, f, AllNeeded(m, id)) && Made(m, m, f, [], AllNeeded(m, id))
  {
    forall x ensures !Needed(m, id, x) { NeededStep(m, id, x); }
  }

  lemma NothingYet(m: Registry, deps: seq<ResourceId>, f: Factories)
    ensures LoadedIn(m, m, f, NeededByFirst(m, deps, 0)) && Made(m, m, f, [], NeededByFirst(m, deps, 0))
  {
  }

  lemma SameDependencies(a: Registry, b: Registry, f: Factories, which: iset<ResourceId>)
    requires LoadedIn(a, b, f, which)
    ensures b.Keys == a.Keys && forall x :: x in b ==> b[x].dependencies == a[x].dependencies
    ensures forall x :: x in b && b[x].state.NotLoaded? ==> a[x].state.NotLoaded?
  {
  }

  /** Wherever the loop over the dependencies has come to, the next one may be loaded, and it has a lower
      rank if it still has to be. */
  lemma NextDependency(a: Registry, b: Registry, f: Factories, id: ResourceId, i: nat, rank: ResourceId -> nat)
    requires Registered(a, id) && Acyclic(a, id, rank) && a[id].state.NotLoaded? && i < |a[id].dependencies|
    requires LoadedIn(a, b, f, NeededByFirst(a, a[id].dependencies, i))
    ensures var d := a[id].dependencies[i];
      && Registered(b, d) && Acyclic(b, d, rank) && (b[d].state.NotLoaded? ==> rank(d) < rank(id))
  {
    hide LoadedIn, Needed;
    var d, which := a[id].dependencies[i], NeededByFirst(a, a[id].dependencies, i);
    SameDependencies(a, b, f, which);
    AcyclicBelow(a, id, d, rank);
    NeededThrough(a, id, id, id);
    forall x | Needed(b, d, x) ensures Needed(a, d, x) {
      NeededWas(a, b, f, which, d, x);
    }
  }

  /** Its dependencies do not need a resource itself. */
  lemma NotItself(a: Registry, b: Registry, f: Factories, id: ResourceId, rank: ResourceId -> nat)
    requires id in a && Acyclic(a, id, rank) && a[id].state.NotLoaded?
    requires LoadedIn(a, b, f, NeededByFirst(a, a[id].dependencies, |a[id].dependencies|))
    ensures id in b && b[id] == a[id] && !NeededBy(a, a[id].dependencies, |a[id].dependencies|, id)
  {
    var deps := a[id].dependencies;
    if NeededBy(a, deps, |deps|, id) {
      var j :| 0 <= j < |deps| && Needed(a, deps[j], id);
      AcyclicBelow(a, id, deps[j], rank);
      NeededFalls(a, deps[j], id, rank);
      NeededFirst(a, deps[j], id);
      NeededThrough(a, id, id, id);
    }
  }

  lemma NeededFirst(m: Registry, id: ResourceId, x: ResourceId)
    requires Needed(m, id, x)
    ensures id in m && m[id].state.NotLoaded?
  {
    var p :| PathFrom(m, p, id, x);
  }

  lemma NoFactory(a: Registry, b: Registry, f: Factories, id: ResourceId, calls: seq<Call>)
    requires id in a && a[id].state.NotLoaded? && !Makes(f, a, id)
    requires LoadedIn(a, b, f, NeededByFirst(a, a[id].dependencies, |a[id].dependencies|))
    requires Made(a, b, f, calls, NeededByFirst(a, a[id].dependencies, |a[id].dependencies|))
    ensures LoadedIn(a, b, f, AllNeeded(a, id)) && Made(a, b, f, calls, AllNeeded(a, id))
  {
    forall x | Makes(f, a, x)
      ensures x in AllNeeded(a, id) <==> x in NeededByFirst(a, a[id].dependencies, |a[id].dependencies|)
    {
      NeededStep(a, id, x);
    }
  }

  lemma LoadedItself(a: Registry, b: Registry, f: Factories, id: ResourceId, calls: seq<Call>, rank: ResourceId -> nat)
    requires id in a && a[id].state.NotLoaded? && Makes(f, a, id) && Acyclic(a, id, rank)
    requires LoadedIn(a, b, f, NeededByFirst(a, a[id].dependencies, |a[id].dependencies|))
    requires Made(a, b, f, calls, NeededByFirst(a, a[id].dependencies, |a[id].dependencies|))
    requires id in b && b[id] == a[id] && !NeededBy(a, a[id].dependencies, |a[id].dependencies|, id)
    ensures var seen := b[id := b[id].(state := Loading)];
      var c := b[id := b[id].(state := Loaded, resource := Some(f[a[id].kind](seen, id)))];
      LoadedIn(a, c, f, AllNeeded(a, id)) && Made(a, c, f, calls + [Call(id, seen)], AllNeeded(a, id))
  {
    hide Needed, NeededBy, LoadedIn, Made, Ready;
    var deps := a[id].dependencies;
    var seen := b[id := b[id].(state := Loading)];
    var c := b[id := b[id].(state := Loaded, resource := Some(f[a[id].kind](seen, id)))];
    forall x | Makes(f, a, x)
      ensures x in AllNeeded(a, id) <==> x == id || x in NeededByFirst(a, deps, |deps|)
    {
      NeededStep(a, id, x);
    }
    ReadyItself(a, b, f, id, rank);
    AlsoLoaded(a, b, c, f, NeededByFirst(a, deps, |deps|), AllNeeded(a, id), id);
    AddCall(a, b, c, f, NeededByFirst(a, deps, |deps|), AllNeeded(a, id), calls, Call(id, seen));
  }

  lemma AlsoLoaded(a: Registry, b: Registry, c: Registry, f: Factories, which: iset<ResourceId>, more: iset<ResourceId>, id: ResourceId)
    requires LoadedIn(a, b, f, which) && id in a && Makes(f, a, id) && b[id] == a[id]
    requires forall x :: Makes(f, a, x) ==> (x in more <==> x == id || x in which)
    requires c.Keys == b.Keys && c[id] == b[id].(state := Loaded, resource := c[id].resource) && c[id].resource.Some?
    requires forall x :: x in b && x != id ==> c[x] == b[x]
    ensures LoadedIn(a, c, f, more)
  {
  }

  lemma ReadyItself(a: Registry, b: Registry, f: Factories, id: ResourceId, rank: ResourceId -> nat)
    requires id in a && a[id].state.NotLoaded? && Acyclic(a, id, rank)
    requires LoadedIn(a, b, f, NeededByFirst(a, a[id].dependencies, |a[id].dependencies|))
    ensures Ready(a, f, Call(id, b[id := b[id].(state := Loading)]))
  {
    var deps := a[id].dependencies;
    var seen := b[id := b[id].(state := Loading)];
    forall d | d in deps && Makes(f, a, d)
      ensures seen[d].state.Loaded? || a[d].state.Loading?
    {
      var j :| 0 <= j < |deps| && deps[j] == d;
      NeededThrough(a, id, id, id);
      if a[d].state.NotLoaded? {
        assert rank(d) < rank(id);
        NeededThrough(a, d, d, d);
        assert Needed(a, deps[j], d);
      }
    }
  }

  /** One more call, for the resource that is now loaded too. */
  lemma AddCall(a: Registry, b: Registry, c: Registry, f: Factories, which: iset<ResourceId>, more: iset<ResourceId>, calls: seq<Call>, last: Call)
    requires Made(a, b, f, calls, which) && !(last.id in which)
    requires forall x :: Makes(f, a, x) ==> (x in more <==> x == last.id || x in which)
    requires MadeBy(a, c, f, last) && forall x :: x in b && x != last.id ==> x in c && c[x] == b[x]
    ensures Made(a, c, f, calls + [last], more)
  {
    hide Makes, Ready;
    forall i | 0 <= i < |calls|
      ensures MadeBy(a, c, f, calls[i]) && calls[i].id != last.id
    {
      assert MadeBy(a, b, f, calls[i]);
      Called(calls, i);
    }
    forall x
      ensures CalledFor(calls + [last], x) <==> x in more && Makes(f, a, x)
    {
      CalledForJoin(calls, [last], x);
      assert CalledFor([last], x) <==> x == last.id by { if x == last.id { assert [last][0].id == x; } }
    }
  }
}
