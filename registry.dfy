/**
 * Value-level meaning of the feature-flag registry.
 *
 * A registry is an object keyed by flag name.  Its contents are a map from
 * name to flag record; its enumeration order (what `Object.entries` yields)
 * is kept as a separate sequence of keys, which grows at the end when a new
 * name is stored and is left alone when an existing name is overwritten.
 * The operations add, status, enabled and toggle are given here as
 * functions on that value; the class in module Features is proved against
 * them, and the lemmas below state what the operations promise.
 */
module Registry {

  datatype Option<T> = None | Some(value: T)

  /** The identity of a caller-supplied `onToggled` function; its body is not modelled. */
  datatype Callback = Callback(id: nat)

  /** A flag record as callers hand it to `add`. */
  datatype Feature = Feature(
    name: string,
    enabled: bool,
    description: Option<string>,
    onToggled: Option<Callback>)

  /** One synchronous call of an `onToggled` callback: for which flag, which function, with which argument. */
  datatype Invocation = Invocation(flag: string, callback: Callback, arg: bool)

  /** The registry's store: enumeration order of the keys, and the record under each key. */
  datatype Store = Store(keys: seq<string>, records: map<string, Feature>)
  {
    /** Keys are enumerated once each, exactly the stored names are enumerated,
        and every record sits under its own name. */
    ghost predicate Valid() {
      && (forall i, j :: 0 <= i < j < |keys| ==> keys[i] != keys[j])
      && (forall k :: k in records <==> k in keys)
      && (forall k :: k in records ==> records[k].name == k)
    }
  }

  /** The registry before anything has been added. */
  const Empty := Store([], map[])

  /** The names of a list of records, in order. */
  function Names(fs: seq<Feature>): (ns: seq<string>)
    ensures |ns| == |fs|
    ensures forall i :: 0 <= i < |fs| ==> ns[i] == fs[i].name
  {
    seq(|fs|, i requires 0 <= i < |fs| => fs[i].name)
  }

  /** Position of a key in an enumeration order. */
  function IndexOf(ks: seq<string>, x: string): (i: nat)
    requires x in ks
    ensures i < |ks| && ks[i] == x
    ensures forall j :: 0 <= j < i ==> ks[j] != x
  {
    if ks[0] == x then 0 else 1 + IndexOf(ks[1..], x)
  }

  // ---------------------------------------------------------------- enabled

  /** `enabled(name)`: the stored flag's state, and false for a name never added. */
  function IsEnabled(s: Store, name: string): (b: bool)
    ensures b ==> name in s.records
    ensures name in s.records ==> (b <==> s.records[name].enabled)
  {
    if name in s.records then s.records[name].enabled else false
  }

  // -------------------------------------------------------------------- add

  /**
   * One assignment `_features[f.name] = f`: the record is stored under its
   * name, an existing name keeps its place and a new one is enumerated last
   * (that no other name is touched is InsertLeavesOthers).
   */
  function Insert(s: Store, f: Feature): (t: Store)
    ensures s.Valid() ==> t.Valid()
    ensures f.name in t.records && t.records[f.name] == f
    ensures f.name in s.records ==> t.keys == s.keys
    ensures f.name !in s.records ==> t.keys == s.keys + [f.name]
  {
    Store(if f.name in s.records then s.keys else s.keys + [f.name], s.records[f.name := f])
  }

  /** Storing one record leaves every other name as it was, registered or not. */
  lemma InsertLeavesOthers(s: Store, f: Feature, name: string)
    requires name != f.name
    ensures name in Insert(s, f).records <==> name in s.records
    ensures name in s.records ==> Insert(s, f).records[name] == s.records[name]
  {
  }

  /** `add(f1, ..., fn)`: the records assigned one after the other, in argument order. */
  function AddAll(s: Store, fs: seq<Feature>): (t: Store)
    decreases |fs|
    ensures s.Valid() ==> t.Valid()
    ensures s.keys <= t.keys
  {
    if fs == [] then s else Insert(AddAll(s, fs[..|fs| - 1]), fs[|fs| - 1])
  }

  /** After add, exactly the names registered before or supplied in the call are registered. */
  lemma {:induction false} AddAllDomain(s: Store, fs: seq<Feature>)
    ensures AddAll(s, fs).records.Keys == s.records.Keys + set n | n in Names(fs)
  {
    if fs != [] {
      var init := fs[..|fs| - 1];
      assert Names(fs) == Names(init) + [fs[|fs| - 1].name];
      AddAllDomain(s, init);
    }
  }

  /** A name supplied in a call to add holds the last record supplied for it. */
  lemma {:induction false} AddAllLastWins(s: Store, fs: seq<Feature>, i: nat)
    requires i < |fs|
    requires forall j :: i < j < |fs| ==> fs[j].name != fs[i].name
    ensures fs[i].name in AddAll(s, fs).records
    ensures AddAll(s, fs).records[fs[i].name] == fs[i]
  {
    if i < |fs| - 1 {
      AddAllLastWins(s, fs[..|fs| - 1], i);
    }
  }

  /** A name not supplied in a call to add keeps its record, or stays unregistered. */
  lemma {:induction false} AddAllUntouched(s: Store, fs: seq<Feature>, name: string)
    requires name !in Names(fs)
    ensures name in AddAll(s, fs).records <==> name in s.records
    ensures name in s.records ==> AddAll(s, fs).records[name] == s.records[name]
  {
    if fs != [] {
      var init := fs[..|fs| - 1];
      assert Names(fs) == Names(init) + [fs[|fs| - 1].name];
      AddAllUntouched(s, init, name);
    }
  }

  /** Re-adding a registered name does not move it in the enumeration order. */
  lemma AddAllKeepsPosition(s: Store, fs: seq<Feature>, name: string)
    requires name in s.keys
    ensures name in AddAll(s, fs).keys
    ensures IndexOf(AddAll(s, fs).keys, name) == IndexOf(s.keys, name)
  {
    var t := AddAll(s, fs).keys;
    assert t[..|s.keys|] == s.keys;
    IndexOfPrefix(s.keys, t, name);
  }

  lemma {:induction false} IndexOfPrefix(p: seq<string>, t: seq<string>, x: string)
    requires p <= t
    requires x in p
    ensures x in t && IndexOf(t, x) == IndexOf(p, x)
  {
    if p[0] != x {
      assert p[1..] <= t[1..];
      IndexOfPrefix(p[1..], t[1..], x);
    }
  }

  /**
   * New names are enumerated in the order of their first appearance in the
   * call: the first occurrence of a new name comes after every name supplied
   * before it.
   */
  lemma {:induction false} AddAllAppendsInOrder(s: Store, fs: seq<Feature>, i: nat, j: nat)
    requires s.Valid()
    requires i < j < |fs|
    requires fs[j].name !in s.records
    requires forall k :: 0 <= k < j ==> fs[k].name != fs[j].name
    ensures fs[i].name in AddAll(s, fs).keys && fs[j].name in AddAll(s, fs).keys
    ensures IndexOf(AddAll(s, fs).keys, fs[i].name) < IndexOf(AddAll(s, fs).keys, fs[j].name)
  {
    var init := fs[..|fs| - 1];
    var before := AddAll(s, init).keys;
    var after := AddAll(s, fs).keys;
    if j == |fs| - 1 {
      NewNameAppendedLast(s, fs, i);
    } else {
      AddAllAppendsInOrder(s, init, i, j);
      IndexOfPrefix(before, after, fs[i].name);
      IndexOfPrefix(before, after, fs[j].name);
    }
  }

  /** The base case: a new name supplied last comes after every name supplied before it. */
  lemma NewNameAppendedLast(s: Store, fs: seq<Feature>, i: nat)
    requires s.Valid()
    requires i < |fs| - 1
    requires fs[|fs| - 1].name !in s.records
    requires forall k :: 0 <= k < |fs| - 1 ==> fs[k].name != fs[|fs| - 1].name
    ensures fs[i].name in AddAll(s, fs).keys && fs[|fs| - 1].name in AddAll(s, fs).keys
    ensures IndexOf(AddAll(s, fs).keys, fs[i].name) < IndexOf(AddAll(s, fs).keys, fs[|fs| - 1].name)
  {
    var before := AddAll(s, fs[..|fs| - 1]).keys;
    var after := AddAll(s, fs).keys;
    var last := fs[|fs| - 1].name;
    LastNewNameAppended(s, fs);
    SuppliedNameEnumerated(s, fs[..|fs| - 1], i);
    IndexOfPrefix(before, after, fs[i].name);
    IndexOfLast(after, last);
  }

  /** A new name supplied only at the end of the call is appended by the last assignment. */
  lemma LastNewNameAppended(s: Store, fs: seq<Feature>)
    requires |fs| > 0
    requires fs[|fs| - 1].name !in s.records
    requires forall k :: 0 <= k < |fs| - 1 ==> fs[k].name != fs[|fs| - 1].name
    ensures AddAll(s, fs).keys == AddAll(s, fs[..|fs| - 1]).keys + [fs[|fs| - 1].name]
  {
    var init := fs[..|fs| - 1];
    AddAllUntouched(s, init, fs[|fs| - 1].name);
  }

  /** Every name supplied in a call to add is enumerated afterwards. */
  lemma SuppliedNameEnumerated(s: Store, fs: seq<Feature>, i: nat)
    requires s.Valid()
    requires i < |fs|
    ensures fs[i].name in AddAll(s, fs).keys
  {
    AddAllDomain(s, fs);
    assert fs[i].name in Names(fs);
  }

  lemma IndexOfLast(ks: seq<string>, x: string)
    requires |ks| > 0 && ks[|ks| - 1] == x
    requires forall i :: 0 <= i < |ks| - 1 ==> ks[i] != x
    ensures IndexOf(ks, x) == |ks| - 1
  {
  }

  /**
   * Adding records with pairwise distinct, unregistered names appends those
   * names in argument order; in particular, a first `add` to an empty
   * registry enumerates exactly the names supplied.
   */
  lemma {:induction false} AddAllFresh(s: Store, fs: seq<Feature>)
    requires forall i, j :: 0 <= i < j < |fs| ==> fs[i].name != fs[j].name
    requires forall i :: 0 <= i < |fs| ==> fs[i].name !in s.records
    ensures AddAll(s, fs).keys == s.keys + Names(fs)
  {
    if fs != [] {
      var init := fs[..|fs| - 1];
      var last := fs[|fs| - 1];
      AddAllFresh(s, init);
      assert Names(fs) == Names(init) + [last.name];
      assert last.name !in Names(init);
      AddAllUntouched(s, init, last.name);
      assert last.name !in AddAll(s, init).records;
      assert AddAll(s, fs).keys == AddAll(s, init).keys + [last.name];
    }
  }

  // ----------------------------------------------------------------- status

  /** The entries `Object.entries` yields for the given keys, each name with its flag's state. */
  function Entries(keys: seq<string>, records: map<string, Feature>): (es: seq<(string, bool)>)
    requires forall k :: k in keys ==> k in records
    ensures |es| == |keys|
    ensures forall i :: 0 <= i < |keys| ==> es[i].0 == keys[i] && es[i].1 == records[keys[i]].enabled
  {
    if keys == [] then []
    else Entries(keys[..|keys| - 1], records) + [(keys[|keys| - 1], records[keys[|keys| - 1]].enabled)]
  }

  /** `status()`: every registered name with its state, in enumeration order. */
  function Snapshot(s: Store): (es: seq<(string, bool)>)
    requires s.Valid()
    ensures |es| == |s.keys|
    ensures forall i :: 0 <= i < |es| ==> es[i] == (s.keys[i], IsEnabled(s, s.keys[i]))
  {
    Entries(s.keys, s.records)
  }

  /**
   * The snapshot names each registered flag exactly once, names nothing else,
   * and pairs each name with what `enabled` answers for it.
   */
  lemma SnapshotAgreesWithEnabled(s: Store, name: string)
    requires s.Valid()
    ensures name in s.records <==> exists i :: 0 <= i < |Snapshot(s)| && Snapshot(s)[i].0 == name
    ensures forall i, j :: 0 <= i < j < |Snapshot(s)| ==> Snapshot(s)[i].0 != Snapshot(s)[j].0
    ensures forall i :: 0 <= i < |Snapshot(s)| && Snapshot(s)[i].0 == name ==> Snapshot(s)[i].1 == IsEnabled(s, name)
  {
    var es := Snapshot(s);
    if name in s.records {
      var i := IndexOf(s.keys, name);
      assert es[i].0 == name;
    }
  }

  // ----------------------------------------------------------------- toggle

  /** What one `toggle(name)` does: the registry after it, what it returns, the callbacks it fires. */
  datatype Toggled = Toggled(after: Store, result: bool, fired: seq<Invocation>)

  /** `toggle(name)`: flip a registered flag and report the new state to its callback, if any. */
  function ToggleStep(s: Store, name: string): (t: Toggled)
    ensures name !in s.records ==> t.after == s && !t.result && t.fired == []
    ensures name in s.records ==>
      && t.result == !IsEnabled(s, name)
      && IsEnabled(t.after, name) == t.result
      && t.after.keys == s.keys
      && t.after.records == s.records[name := s.records[name].(enabled := t.result)]
    ensures name in s.records && s.records[name].onToggled.Some? ==>
      t.fired == [Invocation(name, s.records[name].onToggled.value, t.result)]
    ensures name in s.records && s.records[name].onToggled.None? ==> t.fired == []
    ensures s.Valid() ==> t.after.Valid()
  {
    if name !in s.records then Toggled(s, false, [])
    else
      var f := s.records[name];
      var g := f.(enabled := !f.enabled);
      var after := Store(s.keys, s.records[name := g]);
      var fired := match g.onToggled
        case Some(cb) => [Invocation(name, cb, g.enabled)]
        case None => [];
      Toggled(after, g.enabled, fired)
  }

  /** `n` successive calls of `toggle(name)`; the result is that of the last call. */
  function ToggleRepeatedly(s: Store, name: string, n: nat): (t: Toggled)
  {
    if n == 0 then Toggled(s, IsEnabled(s, name), [])
    else
      var p := ToggleRepeatedly(s, name, n - 1);
      var q := ToggleStep(p.after, name);
      Toggled(q.after, q.result, p.fired + q.fired)
  }

  /**
   * Toggling a registered flag n times leaves it flipped exactly when n is
   * odd, changes no other flag and not the key order, and returns the state
   * the flag is left in.
   */
  lemma {:induction false} ToggleParity(s: Store, name: string, n: nat)
    requires name in s.records
    ensures var t := ToggleRepeatedly(s, name, n);
      var f := s.records[name];
      && t.after.keys == s.keys
      && t.after.records == s.records[name := f.(enabled := if n % 2 == 0 then f.enabled else !f.enabled)]
      && t.result == IsEnabled(t.after, name)
  {
    if n > 0 {
      var f := s.records[name];
      ToggleParity(s, name, n - 1);
      var p := ToggleRepeatedly(s, name, n - 1);
      var e := p.after.records[name].enabled;
      FlipParity(f.enabled, n);
      var q := ToggleStep(p.after, name);
      assert q.after.records == p.after.records[name := f.(enabled := !e)];
      OverwriteTwice(s.records, name, f.(enabled := e), f.(enabled := !e));
    }
  }

  /** The state after n flips, in terms of the state after n - 1. */
  lemma FlipParity(b: bool, n: nat)
    requires n > 0
    ensures (if n % 2 == 0 then b else !b) == !(if (n - 1) % 2 == 0 then b else !b)
  {
  }

  lemma OverwriteTwice(m: map<string, Feature>, k: string, x: Feature, y: Feature)
    ensures m[k := x][k := y] == m[k := y]
  {
  }

  /**
   * Toggling a registered flag n times invokes its callback, if it has one,
   * exactly once per call and with the state that call left behind; a flag
   * without a callback invokes nothing.
   */
  lemma {:induction false} ToggleCallbackCount(s: Store, name: string, n: nat)
    requires name in s.records
    ensures var t := ToggleRepeatedly(s, name, n);
      var f := s.records[name];
      && |t.fired| == (if f.onToggled.Some? then n else 0)
      && forall i :: 0 <= i < |t.fired| ==>
           t.fired[i] == Invocation(name, f.onToggled.value, if i % 2 == 0 then !f.enabled else f.enabled)
  {
    if n > 0 {
      var f := s.records[name];
      ToggleCallbackCount(s, name, n - 1);
      LastToggleFires(s, name, n);
      var p := ToggleRepeatedly(s, name, n - 1).fired;
      var t := ToggleRepeatedly(s, name, n).fired;
      if f.onToggled.Some? {
        var cb := f.onToggled.value;
        forall i | 0 <= i < |t|
          ensures t[i] == Invocation(name, cb, if i % 2 == 0 then !f.enabled else f.enabled)
        {
          if i < n - 1 {
            assert t[i] == p[i];
          }
        }
      }
    }
  }

  /** The n-th toggle of a registered flag adds exactly its own invocation to the log. */
  lemma LastToggleFires(s: Store, name: string, n: nat)
    requires name in s.records && n > 0
    ensures var f := s.records[name];
      ToggleRepeatedly(s, name, n).fired == ToggleRepeatedly(s, name, n - 1).fired +
        match f.onToggled
        case Some(cb) => [Invocation(name, cb, if (n - 1) % 2 == 0 then !f.enabled else f.enabled)]
        case None => []
  {
    ToggleParity(s, name, n - 1);
  }

  /** Toggling an unregistered name any number of times changes nothing and fires nothing. */
  lemma {:induction false} ToggleUnknownIsInert(s: Store, name: string, n: nat)
    requires name !in s.records
    ensures ToggleRepeatedly(s, name, n) == Toggled(s, false, [])
  {
    if n > 0 {
      ToggleUnknownIsInert(s, name, n - 1);
    }
  }

  /** Two toggles of the same name restore the registry. */
  lemma ToggleTwiceRestores(s: Store, name: string)
    ensures ToggleStep(ToggleStep(s, name).after, name).after == s
  {
  }
}
