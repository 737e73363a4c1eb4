/**
 The registry of external JavaScript modules: a process-wide table from a
 module name to the opaque value the extension supplied. `Register` is the
 only writer; `GetJSModules` hands out a copy of the table. The Go panics of
 `Register` are modelled as the two failure outcomes of `Outcome`.
 */
module Modules {

  /** The namespace every external module name must start with. */
  const ExtPrefix: string := "k6/x/"

  /** What one call to `Register` ends with: success, or which rule it broke. */
  datatype Outcome = Ok | BadPrefix | Duplicate

  /** The ESM export surface of a module instance: one default export and the
      named exports. `V` stands for the dynamically typed Go values. */
  datatype Exports<V> = Exports(Default: V, Named: map<string, V>)

  /** One registration request, as host code issues it at start-up. */
  datatype Call<V> = Call(name: string, mod: V)

  /** Go's `strings.HasPrefix`: `s` is long enough and its leading slice equals
      `prefix`. It agrees with Dafny's sequence-prefix relation. */
  function HasPrefix(s: string, prefix: string): (r: bool)
    ensures r <==> prefix <= s
  {
    |s| >= |prefix| && s[..|prefix|] == prefix
  }

  /** Every key of the table lies in the external namespace. */
  ghost predicate AllPrefixed<V>(table: map<string, V>)
  {
    forall name :: name in table ==> ExtPrefix <= name
  }

  /** The outcome of registering `name` while the registry holds `table`: the
      prefix is checked first, then uniqueness. */
  function Admit<V>(table: map<string, V>, name: string): (o: Outcome)
    ensures o == BadPrefix <==> !(ExtPrefix <= name)
    ensures o == Duplicate <==> ExtPrefix <= name && name in table
    ensures o == Ok <==> ExtPrefix <= name && name !in table
  {
    if !HasPrefix(name, ExtPrefix) then BadPrefix
    else if name in table then Duplicate
    else Ok
  }

  /** The table after registering `mod` under `name` on `table`. */
  function Apply<V>(table: map<string, V>, name: string, mod: V): (r: map<string, V>)
    // a failed call leaves the table exactly as it was
    ensures Admit(table, name) != Ok ==> r == table
    // a successful call adds exactly the one entry name -> mod
    ensures Admit(table, name) == Ok ==>
      name in r && r[name] == mod && r.Keys == table.Keys + {name} && |r| == |table| + 1
    // no entry that was there before is removed or changed
    ensures forall k :: k in table ==> k in r && r[k] == table[k]
    // nothing but `name` is ever added
    ensures forall k :: k in r && k != name ==> k in table
  {
    if Admit(table, name) == Ok then table[name := mod] else table
  }

  /** The outcomes of a series of registrations issued one after another. */
  function Outcomes<V>(table: map<string, V>, calls: seq<Call<V>>): (os: seq<Outcome>)
    ensures |os| == |calls|
    decreases |calls|
  {
    if calls == [] then []
    else [Admit(table, calls[0].name)] + Outcomes(Apply(table, calls[0].name, calls[0].mod), calls[1..])
  }

  /** The table after a series of registrations issued one after another. */
  function Final<V>(table: map<string, V>, calls: seq<Call<V>>): (r: map<string, V>)
    decreases |calls|
  {
    if calls == [] then table
    else Final(Apply(table, calls[0].name, calls[0].mod), calls[1..])
  }

  /** `Register` is the only writer and checks the prefix before it writes,
      so the namespace invariant survives any series of calls. */
  lemma {:induction false} FinalKeepsPrefix<V>(table: map<string, V>, calls: seq<Call<V>>)
    requires AllPrefixed(table)
    ensures AllPrefixed(Final(table, calls))
    decreases |calls|
  {
    if calls != [] {
      var next := Apply(table, calls[0].name, calls[0].mod);
      assert AllPrefixed(next);
      FinalKeepsPrefix(next, calls[1..]);
    }
  }

  /** Entries are never updated or removed: whatever a series of calls does,
      every name registered before keeps its original module. */
  lemma {:induction false} FinalKeepsEntries<V>(table: map<string, V>, calls: seq<Call<V>>)
    ensures forall k :: k in table ==> k in Final(table, calls) && Final(table, calls)[k] == table[k]
    decreases |calls|
  {
    if calls != [] {
      FinalKeepsEntries(Apply(table, calls[0].name, calls[0].mod), calls[1..]);
    }
  }

  /** Registering the same name a second time always fails, whatever module
      the second call supplies, and the first module stays in place. */
  lemma SecondRegisterFails<V>(table: map<string, V>, name: string, first: V, second: V)
    requires Admit(table, name) == Ok
    ensures Outcomes(table, [Call(name, first), Call(name, second)]) == [Ok, Duplicate]
    ensures Final(table, [Call(name, first), Call(name, second)]) == table[name := first]
  {
    var once := Apply(table, name, first);
    assert [Call(name, first), Call(name, second)][1..] == [Call(name, second)];
    assert [Call(name, second)][1..] == [];
    assert Outcomes(once, [Call(name, second)]) == [Duplicate];
    assert Final(once, [Call(name, second)]) == Apply(once, name, second) == once;
  }

  /** The i-th call of a series ends with the outcome `Register` gives on the
      table that the calls before it left behind. */
  lemma {:induction false} OutcomeAt<V>(table: map<string, V>, calls: seq<Call<V>>)
    ensures forall i :: 0 <= i < |calls| ==>
      Outcomes(table, calls)[i] == Admit(Final(table, calls[..i]), calls[i].name)
    decreases |calls|
  {
    if calls != [] {
      var rest := calls[1..];
      var next := Apply(table, calls[0].name, calls[0].mod);
      OutcomeAt(next, rest);
      forall i | 0 <= i < |calls|
        ensures Outcomes(table, calls)[i] == Admit(Final(table, calls[..i]), calls[i].name)
      {
        if i == 0 {
          assert calls[..0] == [];
        } else {
          assert calls[..i][1..] == rest[..i - 1];
          assert Final(table, calls[..i]) == Final(next, rest[..i - 1]);
          assert calls[i] == rest[i - 1];
        }
      }
    }
  }

  /** Whatever the table and whatever the two modules, a second registration
      of a name right after a first one never succeeds. */
  lemma SecondRegisterNeverSucceeds<V>(table: map<string, V>, name: string, first: V, second: V)
    ensures Outcomes(table, [Call(name, first), Call(name, second)])[1] != Ok
  {
  }

  /** Pairwise distinct names, none of them taken yet. */
  ghost predicate FreshDistinct<V>(table: map<string, V>, calls: seq<Call<V>>)
  {
    && (forall i :: 0 <= i < |calls| ==> calls[i].name !in table)
    && (forall i, j :: 0 <= i < j < |calls| ==> calls[i].name != calls[j].name)
  }

  /** No lost updates: a series of registrations of distinct, correctly
      prefixed, unused names all succeed, and afterwards the table holds the
      old entries plus exactly one entry per call, each with its own module. */
  lemma {:induction false} DistinctRegistrationsSucceed<V>(table: map<string, V>, calls: seq<Call<V>>)
    requires forall i :: 0 <= i < |calls| ==> ExtPrefix <= calls[i].name
    requires FreshDistinct(table, calls)
    ensures forall i :: 0 <= i < |calls| ==> Outcomes(table, calls)[i] == Ok
    ensures forall i :: 0 <= i < |calls| ==>
      calls[i].name in Final(table, calls) && Final(table, calls)[calls[i].name] == calls[i].mod
    ensures forall k :: k in Final(table, calls) ==>
      k in table || exists i :: 0 <= i < |calls| && calls[i].name == k
    ensures |Final(table, calls)| == |table| + |calls|
    decreases |calls|
  {
    if calls != [] {
      var c := calls[0];
      var rest := calls[1..];
      var next := Apply(table, c.name, c.mod);
      assert Admit(table, c.name) == Ok;
      assert FreshDistinct(next, rest) by {
        forall i | 0 <= i < |rest| ensures rest[i].name !in next {
          assert rest[i] == calls[i + 1];
        }
        forall i, j | 0 <= i < j < |rest| ensures rest[i].name != rest[j].name {
          assert rest[i] == calls[i + 1] && rest[j] == calls[j + 1];
        }
      }
      DistinctRegistrationsSucceed(next, rest);
      FinalKeepsEntries(next, rest);
      var fin := Final(table, calls);
      assert fin == Final(next, rest);
      assert Outcomes(table, calls) == [Ok] + Outcomes(next, rest);
      forall i | 0 <= i < |calls|
        ensures Outcomes(table, calls)[i] == Ok
        ensures calls[i].name in fin && fin[calls[i].name] == calls[i].mod
      {
        if i > 0 {
          assert calls[i] == rest[i - 1];
        }
      }
      forall k | k in fin
        ensures k in table || exists i :: 0 <= i < |calls| && calls[i].name == k
      {
        if k !in next {
          var i :| 0 <= i < |rest| && rest[i].name == k;
          assert calls[i + 1].name == k;
        } else if k == c.name {
          assert calls[0].name == k;
        }
      }
    }
  }

  /** The registry: the package-level `modules` map, as an object whose one
      field `Register` updates in place. */
  class Registry<V> {
    var modules: map<string, V>

    /** Every registered name lies in the external namespace. */
    ghost predicate Valid()
      reads this
    {
      AllPrefixed(modules)
    }

    /** The registry starts out empty. */
    constructor ()
      ensures Valid() && modules == map[]
    {
      modules := map[];
    }

    /** Registers `mod` under `name`. A name outside the external namespace
        is refused before anything is touched; a name already taken is refused
        and its entry kept; otherwise exactly the one entry is added. */
    method Register(name: string, mod: V) returns (o: Outcome)
      requires Valid()
      modifies this
      ensures Valid()
      ensures o == Admit(old(modules), name)
      ensures modules == Apply(old(modules), name, mod)
    {
      if !HasPrefix(name, ExtPrefix) {
        return BadPrefix;
      }
      if name in modules {
        return Duplicate;
      }
      modules := modules[name := mod];
      return Ok;
    }

    /** A copy of the table: a map of its own with the same keys, values and
        size. The method reads the registry and changes nothing. */
    method GetJSModules() returns (result: map<string, V>)
      ensures result == modules
      ensures |result| == |modules|
    {
      result := map[];
      var remaining := modules.Keys;
      while remaining != {}
        invariant remaining <= modules.Keys
        invariant result.Keys == modules.Keys - remaining
        invariant forall name :: name in result ==> result[name] == modules[name]
        decreases remaining
      {
        var name :| name in remaining;
        result := result[name := modules[name]];
        remaining := remaining - {name};
      }
    }
  }

  /** Three registry scenarios: registering
      "k6/x/metrics" succeeds, "metrics" is refused for its prefix, a second
      "k6/x/metrics" is refused as a duplicate, and the copy afterwards holds
      exactly the first module. */
  method MetricsScenario<V>(m: V, other: V) returns (first: Outcome, bad: Outcome, again: Outcome, snapshot: map<string, V>)
    ensures first == Ok && bad == BadPrefix && again == Duplicate
    ensures snapshot == map["k6/x/metrics" := m]
  {
    var registry := new Registry<V>();
    first := registry.Register("k6/x/metrics", m);
    assert !(ExtPrefix <= "metrics") by { assert ExtPrefix[0] != "metrics"[0]; }
    bad := registry.Register("metrics", other);
    again := registry.Register("k6/x/metrics", other);
    snapshot := registry.GetJSModules();
  }
}
