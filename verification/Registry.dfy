/** The registry of module factories, keyed by name and version, and the registrar that remembers what
    it added. */
module Registry {
  import opened Common
  import opened Version

  /** A factory as the registry sees it: its name, its version, and which object it is. */
  datatype Factory = Factory(name: string, version: Version, id: nat)

  datatype RegistryError = NullFactory | Duplicate | NoSuchModule | NoSuchVersion

  /** Versions compare by their four padded components, so those are the key. */
  type Parts = seq<nat>

  type Store = map<string, map<Parts, Factory>>

  /** A version map is never empty, and a factory sits under its own name and version. */
  ghost predicate WellKept(s: Store) {
    forall name | name in s ::
      && s[name] != map[]
      && forall p | p in s[name] :: s[name][p].name == name && s[name][p].version.parts == p
  }

  function Get(s: Store, name: string, p: Parts): Option<Factory> {
    if name in s && p in s[name] then Some(s[name][p]) else None
  }

  // ----- Adding and removing -----

  /** An addition: refused when the name already holds that version. */
  function AddTo(s: Store, f: Factory): (Store, bool) {
    var versions := if f.name in s then s[f.name] else map[];
    if f.version.parts in versions then (s, false)
    else (s[f.name := versions[f.version.parts := f]], true)
  }

  /** Removal of one version; a name left without versions goes too. */
  function RemoveFrom(s: Store, name: string, p: Parts): (Store, bool) {
    if Get(s, name, p).None? then (s, false)
    else
      var left := s[name] - {p};
      (if left == map[] then s - {name} else s[name := left], true)
  }

  lemma AddGet(s: Store, f: Factory, name: string, p: Parts)
    requires WellKept(s)
    ensures WellKept(AddTo(s, f).0)
    ensures AddTo(s, f).1 <==> Get(s, f.name, f.version.parts).None?
    ensures Get(AddTo(s, f).0, name, p) ==
            if AddTo(s, f).1 && name == f.name && p == f.version.parts then Some(f) else Get(s, name, p)
  {
    var now := AddTo(s, f).0;
    if AddTo(s, f).1 {
      assert f.version.parts in now[f.name];
    }
  }

  lemma RemoveGet(s: Store, gone: string, q: Parts, name: string, p: Parts)
    requires WellKept(s)
    ensures WellKept(RemoveFrom(s, gone, q).0)
    ensures RemoveFrom(s, gone, q).1 <==> Get(s, gone, q).Some?
    ensures Get(RemoveFrom(s, gone, q).0, name, p) == if name == gone && p == q then None else Get(s, name, p)
  {
    if Get(s, gone, q).Some? && name == gone && p in s[gone] && p != q {
      assert p in s[gone] - {q};
    }
  }

  /** A well-kept store is what it answers. */
  lemma StoreIsItsAnswers(s: Store, t: Store)
    requires WellKept(s) && WellKept(t)
    requires forall name, p :: Get(s, name, p) == Get(t, name, p)
    ensures s == t
  {
    forall name ensures name in s <==> name in t {
      if name in s {
        assert s[name] != map[];
        var p :| p in s[name];
        assert Get(s, name, p) == Get(t, name, p);
      }
      if name in t {
        assert t[name] != map[];
        var p :| p in t[name];
        assert Get(s, name, p) == Get(t, name, p);
      }
    }
    forall name | name in s ensures s[name] == t[name] {
      forall p ensures p in s[name] <==> p in t[name] {
        assert Get(s, name, p) == Get(t, name, p);
      }
      forall p | p in s[name] ensures s[name][p] == t[name][p] {
        assert Get(s, name, p) == Get(t, name, p);
      }
    }
  }

  // ----- Rollback -----

  /** Adding one factory after another; the keys of those that went in, in order. */
  function AddMany(s: Store, fs: seq<Factory>): (Store, seq<(string, Parts)>) {
    if fs == [] then (s, [])
    else
      var n := |fs| - 1;
      var (t, keys) := AddMany(s, fs[..n]);
      var (u, added) := AddTo(t, fs[n]);
      (u, if added then keys + [(fs[n].name, fs[n].version.parts)] else keys)
  }

  function RemoveMany(s: Store, keys: seq<(string, Parts)>): Store {
    if keys == [] then s
    else RemoveFrom(RemoveMany(s, keys[..|keys| - 1]), keys[|keys| - 1].0, keys[|keys| - 1].1).0
  }

  /** Removing a list of keys removes those and nothing else. */
  lemma {:induction false} RemoveManyGet(s: Store, keys: seq<(string, Parts)>, name: string, p: Parts)
    requires WellKept(s)
    ensures WellKept(RemoveMany(s, keys))
    ensures Get(RemoveMany(s, keys), name, p) == if (name, p) in keys then None else Get(s, name, p)
  {
    hide RemoveFrom, Get, WellKept;
    if keys != [] {
      var n := |keys| - 1;
      RemoveManyGet(s, keys[..n], name, p);
      RemoveGet(RemoveMany(s, keys[..n]), keys[n].0, keys[n].1, name, p);
      assert keys == keys[..n] + [keys[n]];
    }
  }

  lemma {:induction false} AddManyGet(s: Store, fs: seq<Factory>, name: string, p: Parts)
    requires WellKept(s)
    ensures var (t, keys) := AddMany(s, fs);
            && WellKept(t)
            && ((name, p) in keys ==> Get(s, name, p).None?)
            && ((name, p) !in keys ==> Get(t, name, p) == Get(s, name, p))
            && (Get(s, name, p).Some? ==> Get(t, name, p) == Get(s, name, p))
  {
    hide AddTo, Get, WellKept;
    if fs != [] {
      var n := |fs| - 1;
      var (t, keys) := AddMany(s, fs[..n]);
      AddManyGet(s, fs[..n], name, p);
      AddGet(t, fs[n], name, p);
    }
  }

  /** Removing every pair that was registered, in any state the adds left behind - refused ones among
      them - restores the store there was before. */
  lemma RollbackRestores(s: Store, fs: seq<Factory>)
    requires WellKept(s)
    ensures RemoveMany(AddMany(s, fs).0, AddMany(s, fs).1) == s
  {
    hide AddMany, RemoveMany, Get, WellKept;
    var (t, keys) := AddMany(s, fs);
    AddManyGet(s, fs, "", []);
    RemoveManyGet(t, keys, "", []);
    forall name, p ensures Get(RemoveMany(t, keys), name, p) == Get(s, name, p) {
      AddManyGet(s, fs, name, p);
      RemoveManyGet(t, keys, name, p);
      NoneIsNone(Get(s, name, p));
    }
    StoreIsItsAnswers(RemoveMany(t, keys), s);
  }

  lemma NoneIsNone<T>(x: Option<T>)
    ensures x.None? ==> x == None
  {}

  // ----- Order of the catalog -----

  function Codes(name: string): (r: seq<nat>)
    ensures |r| == |name|
  {
    seq(|name|, i requires 0 <= i < |name| => name[i] as nat)
  }

  lemma CodesInjective(a: string, b: string)
    requires Codes(a) == Codes(b)
    ensures a == b
  {
    forall i | 0 <= i < |a| ensures a[i] == b[i] {
      assert Codes(a)[i] == Codes(b)[i];
    }
  }

  /** Of two names, as std::string compares them: the one that ends first, or has the smaller character,
      where they first part. */
  ghost predicate NamePrecedes(a: string, b: string) {
    exists k :: 0 <= k <= |a| && k < |b| && a[..k] == b[..k] && (k == |a| || a[k] < b[k])
  }

  lemma NameOrder(a: string, b: string)
    ensures Less(Codes(a), Codes(b)) <==> NamePrecedes(a, b)
  {
    LessIsPrecedes(Codes(a), Codes(b));
    forall k | 0 <= k <= |a| && k <= |b| ensures a[..k] == b[..k] <==> Codes(a)[..k] == Codes(b)[..k] {
      if Codes(a)[..k] == Codes(b)[..k] {
        assert forall i | 0 <= i < k :: Codes(a)[..k][i] == a[i] as nat && Codes(b)[..k][i] == b[i] as nat;
      }
    }
  }

  /** By name, then by version. */
  predicate Before(a: Factory, b: Factory) {
    Less(Codes(a.name), Codes(b.name)) || (a.name == b.name && Less(a.version.parts, b.version.parts))
  }

  predicate SameKey(a: Factory, b: Factory) {
    a.name == b.name && a.version.parts == b.version.parts
  }

  lemma BeforeTotal(a: Factory, b: Factory)
    ensures Before(a, b) || SameKey(a, b) || Before(b, a)
    ensures !(Before(a, b) && Before(b, a)) && !Before(a, a)
  {
    hide Less, Codes;
    LessTotal(Codes(a.name), Codes(b.name));
    LessTotal(a.version.parts, b.version.parts);
    LessTotal(Codes(a.name), Codes(a.name));
    LessTotal(a.version.parts, a.version.parts);
    if Codes(a.name) == Codes(b.name) {
      CodesInjective(a.name, b.name);
    }
  }

  lemma BeforeTransitive(a: Factory, b: Factory, c: Factory)
    requires Before(a, b) && Before(b, c)
    ensures Before(a, c)
  {
    hide Less, Codes;
    if Less(Codes(a.name), Codes(b.name)) && Less(Codes(b.name), Codes(c.name)) {
      LessTransitive(Codes(a.name), Codes(b.name), Codes(c.name));
    } else if a.name == b.name == c.name && Less(a.version.parts, b.version.parts)
      && Less(b.version.parts, c.version.parts) {
      LessTransitive(a.version.parts, b.version.parts, c.version.parts);
    }
  }

  ghost predicate Ascending(list: seq<Factory>) {
    forall i, j | 0 <= i < j < |list| :: Before(list[i], list[j])
  }

  lemma AscendingIs(list: seq<Factory>)
    requires Ascending(list)
    ensures forall i, j | 0 <= i < j < |list| ::
              || NamePrecedes(list[i].name, list[j].name)
              || (list[i].name == list[j].name && Precedes(list[i].version.parts, list[j].version.parts))
  {
    hide Less, Codes, NamePrecedes, Precedes;
    forall i, j | 0 <= i < j < |list|
      ensures || NamePrecedes(list[i].name, list[j].name)
              || (list[i].name == list[j].name && Precedes(list[i].version.parts, list[j].version.parts))
    {
      assert Before(list[i], list[j]);
      NameOrder(list[i].name, list[j].name);
      LessIsPrecedes(list[i].version.parts, list[j].version.parts);
    }
  }

  /** Everything from the place the loop stops at comes after the new factory. */
  lemma InsertedAscends(list: seq<Factory>, f: Factory, i: nat)
    requires Ascending(list) && i <= |list|
    requires forall j | 0 <= j < i :: Before(list[j], f)
    requires i < |list| ==> !Before(list[i], f) && !SameKey(f, list[i])
    ensures Ascending(list[..i] + [f] + list[i..])
  {
    hide Before, SameKey;
    var r := list[..i] + [f] + list[i..];
    forall j | i <= j < |list| ensures Before(f, list[j]) {
      BeforeTotal(list[i], f);
      SameKeySymmetric(f, list[i]);
      if i < j {
        BeforeTransitive(f, list[i], list[j]);
      }
    }
    assert forall j | 0 <= j < |r| :: r[j] == if j < i then list[j] else if j == i then f else list[j - 1];
  }

  method InsertSorted(list: seq<Factory>, f: Factory) returns (r: seq<Factory>)
    requires Ascending(list) && forall g | g in list :: !SameKey(f, g)
    ensures Ascending(r) && forall g :: g in r <==> g in list || g == f
  {
    hide Before, SameKey, Ascending;
    var i := 0;
    while i < |list| && Before(list[i], f)
      invariant 0 <= i <= |list|
      invariant forall j | 0 <= j < i :: Before(list[j], f)
    {
      i := i + 1;
    }
    r := list[..i] + [f] + list[i..];
    if i < |list| {
      assert list[i] in list;
    }
    InsertedAscends(list, f, i);
    assert list == list[..i] + list[i..];
  }

  lemma SameKeySymmetric(a: Factory, b: Factory)
    ensures SameKey(a, b) <==> SameKey(b, a)
  {}

  // ----- The registry -----

  class ModuleRegistry {
    var registry: Store

    ghost predicate Valid()
      reads this
    {
      WellKept(registry)
    }

    constructor ()
      ensures Valid() && registry == map[]
    {
      registry := map[];
    }

    method Add(factory: Option<Factory>) returns (r: Result<Factory, RegistryError>)
      requires Valid()
      modifies this
      ensures Valid()
      ensures factory.None? ==> r == Err(NullFactory) && registry == old(registry)
      ensures factory.Some? ==>
                && registry == AddTo(old(registry), factory.value).0
                && r == if AddTo(old(registry), factory.value).1 then Ok(factory.value) else Err(Duplicate)
    {
      if factory.None? {
        return Err(NullFactory);
      }
      var f := factory.value;
      AddGet(registry, f, f.name, f.version.parts);
      ghost var was := registry;
      if f.name !in registry {
        registry := registry[f.name := map[]];
      }
      if f.version.parts in registry[f.name] {
        assert registry == was;
        return Err(Duplicate);
      }
      registry := registry[f.name := registry[f.name][f.version.parts := f]];
      assert registry == AddTo(was, f).0;
      r := Ok(f);
    }

    /** The factory of the greatest version of a name. */
    method Find(name: string) returns (r: Option<Factory>)
      requires Valid()
      ensures r.Some? <==> name in registry
      ensures r.Some? ==>
                && Get(registry, name, r.value.version.parts) == r
                && forall p | p in registry[name] && p != r.value.version.parts :: Precedes(p, r.value.version.parts)
    {
      if name !in registry {
        return None;
      }
      var versions := registry[name];
      var best :| best in versions;
      var rest := versions.Keys - {best};
      while rest != {}
        invariant best in versions && rest <= versions.Keys
        invariant forall p | p in versions && p !in rest && p != best :: Less(p, best)
        decreases rest
      {
        var p :| p in rest;
        LessTotal(best, p);
        if Less(best, p) {
          forall q | q in versions && q !in rest && q != best ensures Less(q, p) {
            LessTransitive(q, best, p);
          }
          best := p;
        }
        rest := rest - {p};
      }
      forall p | p in versions && p != best ensures Precedes(p, best) {
        LessIsPrecedes(p, best);
      }
      r := Some(versions[best]);
    }

    method FindExact(name: string, v: Version) returns (r: Option<Factory>)
      ensures r == Get(registry, name, v.parts)
    {
      r := if name in registry && v.parts in registry[name] then Some(registry[name][v.parts]) else None;
    }

    method RemoveAll(name: string) returns (found: bool)
      requires Valid()
      modifies this
      ensures Valid() && registry == old(registry) - {name} && (found <==> name in old(registry))
    {
      found := name in registry;
      registry := registry - {name};
    }

    method Remove(name: string, v: Version) returns (found: bool)
      requires Valid()
      modifies this
      ensures Valid() && (registry, found) == RemoveFrom(old(registry), name, v.parts)
    {
      RemoveGet(registry, name, v.parts, name, v.parts);
      if name !in registry {
        return false;
      }
      if v.parts !in registry[name] {
        return false;
      }
      registry := registry[name := registry[name] - {v.parts}];
      if registry[name] == map[] {
        registry := registry - {name};
      }
      assert registry == RemoveFrom(old(registry), name, v.parts).0;
      return true;
    }

    /** Every factory, by name and then by version: complete, and strictly ascending, so none twice. */
    method List() returns (list: seq<Factory>)
      requires Valid()
      ensures forall i, j | 0 <= i < j < |list| ::
                || NamePrecedes(list[i].name, list[j].name)
                || (list[i].name == list[j].name && Precedes(list[i].version.parts, list[j].version.parts))
      ensures forall f :: f in list <==> Get(registry, f.name, f.version.parts) == Some(f)
    {
      hide Ascending, Before, NamePrecedes, Precedes;
      list := [];
      EmptyAscends();
      var names := registry.Keys;
      while names != {}
        invariant names <= registry.Keys && Ascending(list)
        invariant forall f :: f in list <==> f.name !in names && Get(registry, f.name, f.version.parts) == Some(f)
        decreases names
      {
        var name :| name in names;
        var versions := registry[name];
        var keys := versions.Keys;
        while keys != {}
          invariant keys <= versions.Keys && Ascending(list)
          invariant forall f :: f in list <==>
                      && (f.name !in names || (f.name == name && f.version.parts !in keys))
                      && Get(registry, f.name, f.version.parts) == Some(f)
          decreases keys
        {
          var p :| p in keys;
          assert Get(registry, name, p) == Some(versions[p]);
          list := InsertSorted(list, versions[p]);
          keys := keys - {p};
        }
        names := names - {name};
      }
      AscendingIs(list);
    }
  }

  lemma EmptyAscends()
    ensures Ascending([])
  {}

  /** What a registration function is handed: it adds to the registry and remembers each pair that went
      in, so that they can be withdrawn. */
  class ModuleRegistrar {
    const target: ModuleRegistry
    var registered: seq<(string, Version)>

    constructor (target: ModuleRegistry)
      ensures this.target == target && registered == []
    {
      this.target := target;
      registered := [];
    }

    /** A refused addition leaves the list as it was. */
    method Add(factory: Option<Factory>) returns (r: Result<Factory, RegistryError>)
      requires target.Valid()
      modifies this, target
      ensures target.Valid()
      ensures r.Ok? <==> factory.Some? && AddTo(old(target.registry), factory.value).1
      ensures target.registry == if factory.Some? then AddTo(old(target.registry), factory.value).0
              else old(target.registry)
      ensures registered ==
              if r.Ok? then old(registered) + [(factory.value.name, factory.value.version)] else old(registered)
    {
      r := target.Add(factory);
      if r.Ok? {
        registered := registered + [(r.value.name, r.value.version)];
      }
    }
  }

  function KeysOf(pairs: seq<(string, Version)>): seq<(string, Parts)> {
    seq(|pairs|, i requires 0 <= i < |pairs| => (pairs[i].0, pairs[i].1.parts))
  }

  /** A registration function at work: one factory after another, whatever each is answered. */
  method Register(registrar: ModuleRegistrar, fs: seq<Factory>)
    requires registrar.target.Valid() && registrar.registered == []
    modifies registrar, registrar.target
    ensures registrar.target.Valid()
    ensures (registrar.target.registry, KeysOf(registrar.registered)) == AddMany(old(registrar.target.registry), fs)
  {
    hide AddTo, WellKept;
    ghost var was := registrar.target.registry;
    assert fs[..0] == [] && KeysOf(registrar.registered) == [];
    for i := 0 to |fs|
      invariant registrar.target.Valid()
      invariant (registrar.target.registry, KeysOf(registrar.registered)) == AddMany(was, fs[..i])
    {
      assert fs[..i + 1][..i] == fs[..i];
      ghost var keys := KeysOf(registrar.registered);
      var r := registrar.Add(Some(fs[i]));
      assert KeysOf(registrar.registered) == if r.Ok? then keys + [(fs[i].name, fs[i].version.parts)] else keys;
    }
    assert fs[..|fs|] == fs;
  }

  /** The unload: each remembered pair is removed. */
  method Withdraw(target: ModuleRegistry, pairs: seq<(string, Version)>)
    requires target.Valid()
    modifies target
    ensures target.Valid() && target.registry == RemoveMany(old(target.registry), KeysOf(pairs))
  {
    hide RemoveFrom, WellKept;
    ghost var full, keys := target.registry, KeysOf(pairs);
    for i := 0 to |pairs|
      invariant target.Valid() && target.registry == RemoveMany(full, keys[..i])
    {
      assert keys[..i + 1][..i] == keys[..i];
      var found := target.Remove(pairs[i].0, pairs[i].1);
    }
    assert keys[..|pairs|] == keys;
  }

  /** Loading a plugin's factories and unloading them: the registry is what it was. */
  method LoadAndUnload(target: ModuleRegistry, fs: seq<Factory>)
    requires target.Valid()
    modifies target
    ensures target.Valid() && target.registry == old(target.registry)
  {
    hide AddMany, RemoveMany;
    RollbackRestores(target.registry, fs);
    var registrar := new ModuleRegistrar(target);
    Register(registrar, fs);
    Withdraw(target, registrar.registered);
  }
}
