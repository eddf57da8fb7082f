/**
 * The `FeatureFlags` registry object.  Its one private store is kept as two
 * fields: the enumeration order of the stored names and the map from name
 * to flag record.  Calls of `onToggled` callbacks are recorded in a ghost log.
 * Each method is proved to do to the store what the matching function of
 * module Registry says.
 */
module Features {
  import opened Registry

  class FeatureFlags {
    /** Enumeration order of the store's keys, as `Object.entries` yields them. */
    var keys: seq<string>
    /** The store itself: the record last added under each name. */
    var features: map<string, Feature>
    /** Every callback invocation so far, oldest first. */
    ghost var calls: seq<Invocation>

    /** The store as a value. */
    function State(): Store
      reads this
    {
      Store(keys, features)
    }

    ghost predicate Valid()
      reads this
    {
      State().Valid()
    }

    /** The one shared instance, holding no flags yet. */
    constructor ()
      ensures Valid()
      ensures State() == Empty && calls == []
    {
      keys := [];
      features := map[];
      calls := [];
    }

    /** Store each record under its name, in argument order; later records win. */
    method Add(fs: seq<Feature>)
      requires Valid()
      modifies this
      ensures Valid()
      ensures State() == AddAll(old(State()), fs)
      ensures calls == old(calls)
    {
      for i := 0 to |fs|
        invariant Valid()
        invariant State() == AddAll(old(State()), fs[..i])
        invariant calls == old(calls)
      {
        ghost var before := State();
        var f := fs[i];
        if f.name !in features {
          keys := keys + [f.name];
        }
        features := features[f.name := f];
        assert keys == Insert(before, f).keys && features == Insert(before, f).records;
        assert fs[..i + 1][..i] == fs[..i];
        assert AddAll(old(State()), fs[..i + 1]) == Insert(AddAll(old(State()), fs[..i]), f);
      }
      assert fs[..|fs|] == fs;
    }

    /** A fresh list of every registered name with its state, in enumeration order. */
    method Status() returns (entries: seq<(string, bool)>)
      requires Valid()
      ensures entries == Snapshot(State())
    {
      entries := [];
      for i := 0 to |keys|
        invariant |entries| == i
        invariant forall j :: 0 <= j < i ==> entries[j] == (keys[j], features[keys[j]].enabled)
      {
        entries := entries + [(keys[i], features[keys[i]].enabled)];
      }
    }

    /** Whether the named flag is on; false for a name that was never added. */
    function Enabled(name: string): (b: bool)
      reads this
      ensures b ==> name in features
      ensures name in features ==> (b <==> features[name].enabled)
    {
      IsEnabled(State(), name)
    }

    /**
     * Flip the named flag, then call its callback (if any) with the new state,
     * and return that state.  An unknown name returns false and changes nothing.
     */
    method Toggle(name: string) returns (b: bool)
      requires Valid()
      modifies this
      ensures Valid()
      ensures State() == ToggleStep(old(State()), name).after
      ensures b == ToggleStep(old(State()), name).result
      ensures calls == old(calls) + ToggleStep(old(State()), name).fired
    {
      if name !in features {
        return false;
      }
      var f := features[name];
      features := features[name := f.(enabled := !f.enabled)];
      match features[name].onToggled {
        case Some(cb) =>
          calls := calls + [Invocation(name, cb, features[name].enabled)];
        case None =>
      }
      b := features[name].enabled;
    }
  }
}
