/**
 * A client of the registry that replays the behaviour the package's own
 * test suite expects (src/features.test.ts), using the contracts of
 * FeatureFlags and the definitions and lemmas of module Registry (the first
 * add is worked out by unfolding AddAll).  Each block of the suite
 * is one method, handed the registry in the state the previous block left.
 */
module Scenario {
  import opened Registry
  import opened Features

  const CountToggle := Callback(0)
  const CountLateToggle := Callback(1)

  const Simple := Feature("simple", true, None, None)
  const Descriptive := Feature("descriptive", false, Some("a little extra explanantion"), None)
  const Dynamic := Feature("dynamic", false, None, Some(CountToggle))
  const LateEntry := Feature("late entry", false, None, Some(CountLateToggle))

  /** The registry once the suite's three flags are added. */
  const Registered := Store(
    ["simple", "descriptive", "dynamic"],
    map["simple" := Simple, "descriptive" := Descriptive, "dynamic" := Dynamic])

  /** The registry once "late entry" is added as well. */
  const WithLateEntry := Store(
    ["simple", "descriptive", "dynamic", "late entry"],
    map["simple" := Simple, "descriptive" := Descriptive, "dynamic" := Dynamic, "late entry" := LateEntry])

  method SetUp() returns (flags: FeatureFlags)
    ensures fresh(flags)
    ensures flags.Valid() && flags.State() == Registered && flags.calls == []
  {
    var fs := [Simple, Descriptive, Dynamic];
    flags := new FeatureFlags();
    flags.Add(fs);
    AddedInOrder();
  }

  /** The first add of the suite, one assignment at a time. */
  lemma AddedInOrder()
    ensures AddAll(Empty, [Simple, Descriptive, Dynamic]) == Registered
  {
    var fs := [Simple, Descriptive, Dynamic];
    assert fs[..2] == [Simple, Descriptive];
    AddedFirstTwo();
    var s3 := Insert(AddAll(Empty, [Simple, Descriptive]), Dynamic);
    assert AddAll(Empty, fs) == s3;
    assert s3.keys == Registered.keys;
    assert s3.records == Registered.records;
  }

  lemma AddedFirstTwo()
    ensures AddAll(Empty, [Simple, Descriptive])
         == Store(["simple", "descriptive"], map["simple" := Simple, "descriptive" := Descriptive])
  {
    assert [Simple, Descriptive][..1] == [Simple];
    AddedFirst();
    assert AddAll(Empty, [Simple, Descriptive]) == Insert(AddAll(Empty, [Simple]), Descriptive);
  }

  lemma AddedFirst()
    ensures AddAll(Empty, [Simple]) == Store(["simple"], map["simple" := Simple])
  {
    assert [Simple][..0] == [];
    assert AddAll(Empty, [Simple]) == Insert(Empty, Simple);
  }

  method StatusTests(flags: FeatureFlags)
    requires flags.Valid() && flags.State() == Registered
  {
    var status := flags.Status();
    assert status == [("simple", true), ("descriptive", false), ("dynamic", false)];
  }

  method AddTests(flags: FeatureFlags)
    requires flags.Valid() && flags.State() == Registered
    modifies flags
    ensures flags.Valid() && flags.State() == WithLateEntry && flags.calls == old(flags.calls)
  {
    flags.Add([LateEntry]);
    assert Names([LateEntry]) == ["late entry"];
    AddAllLastWins(Registered, [LateEntry], 0);
    AddAllUntouched(Registered, [LateEntry], "simple");
    AddAllUntouched(Registered, [LateEntry], "descriptive");
    AddAllUntouched(Registered, [LateEntry], "dynamic");
    assert flags.features.Keys == WithLateEntry.records.Keys;
  }

  method EnabledTests(flags: FeatureFlags)
    requires flags.Valid() && flags.State() == WithLateEntry
  {
    assert flags.Enabled("simple");
    assert !flags.Enabled("descriptive");
    assert !flags.Enabled("late entry");
    assert !flags.Enabled("false");
  }

  method ToggleTests(flags: FeatureFlags)
    requires flags.Valid() && flags.State() == WithLateEntry && flags.calls == []
    modifies flags
  {
    FlipTests(flags);
    CallbackTests(flags);
    UnknownToggleTests(flags);
  }

  /** Toggling flips a flag, and enabled() agrees with what toggle() returned. */
  method FlipTests(flags: FeatureFlags)
    requires flags.Valid() && flags.State() == WithLateEntry && flags.calls == []
    modifies flags
    ensures flags.Valid() && flags.keys == WithLateEntry.keys
    ensures "dynamic" in flags.features && flags.features["dynamic"] == Dynamic
    ensures "late entry" in flags.features && flags.features["late entry"] == LateEntry.(enabled := true)
    ensures flags.calls == [Invocation("late entry", CountLateToggle, true)]
    ensures flags.features.Keys == WithLateEntry.records.Keys
  {
    var b := flags.Toggle("simple");
    assert !b;
    b := flags.Toggle("simple");
    assert b && flags.Enabled("simple");
    b := flags.Toggle("late entry");
    assert b && flags.Enabled("late entry");
  }

  /** A flag's callback is called once per toggle, with the new state. */
  method CallbackTests(flags: FeatureFlags)
    requires flags.Valid()
    requires "dynamic" in flags.features && flags.features["dynamic"] == Dynamic
    requires "late entry" in flags.features && flags.features["late entry"] == LateEntry.(enabled := true)
    requires flags.calls == [Invocation("late entry", CountLateToggle, true)]
    modifies flags
    ensures flags.Valid() && flags.features.Keys == old(flags.features.Keys)
  {
    var b := flags.Toggle("dynamic");
    assert flags.calls[1] == Invocation("dynamic", CountToggle, true);
    b := flags.Toggle("dynamic");
    b := flags.Toggle("dynamic");
    assert flags.calls[1..] == [
      Invocation("dynamic", CountToggle, true),
      Invocation("dynamic", CountToggle, false),
      Invocation("dynamic", CountToggle, true)
    ];
    b := flags.Toggle("late entry");
    assert flags.calls[4] == Invocation("late entry", CountLateToggle, false);
  }

  /** Toggling a name that was never added returns false and changes nothing. */
  method UnknownToggleTests(flags: FeatureFlags)
    requires flags.Valid() && "fake" !in flags.features
    modifies flags
  {
    ghost var s := flags.State();
    ghost var log := flags.calls;
    var b := flags.Toggle("fake");
    assert !b && flags.State() == s && flags.calls == log;
  }

  method TestSuite()
  {
    var flags := SetUp();
    StatusTests(flags);
    AddTests(flags);
    EnabledTests(flags);
    ToggleTests(flags);
  }
}
