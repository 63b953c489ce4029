/**
 * The default JSON mapper of `JsonPatchUtil`: callbacks registered with
 * `configureMapper` are collected until the first `getDefaultMapper`, which
 * applies them in order to a fresh builder, forces failing on unknown
 * properties, freezes the configuration and keeps the mapper for good
 * (until the testing-only reset).
 */
module MapperConfig {
  import opened Wrappers
  import opened Errors

  datatype Feature = FailOnUnknownProperties | IndentOutput | OtherFeature(name: string)

  /** A configuration callback; each one here is a `builder.configure(feature, state)` call. */
  datatype Config = Configure(feature: Feature, state: bool)

  /** The features a builder has set explicitly; any other keeps the library default. */
  type Settings = map<Feature, bool>

  datatype Mapper = Mapper(settings: Settings)

  /** `config.accept(builder)`. */
  function Accept(s: Settings, c: Config): Settings {
    s[c.feature := c.state]
  }

  /** A fresh builder after the callbacks, in registration order. */
  function Configured(cs: seq<Config>): Settings {
    if cs == [] then map[] else Accept(Configured(cs[..|cs| - 1]), cs[|cs| - 1])
  }

  /** What `build()` makes of the registered callbacks. */
  function Build(cs: seq<Config>): Mapper {
    Mapper(Configured(cs)[FailOnUnknownProperties := true])
  }

  /** `isEnabled`: the explicit setting, or None where the library default applies. */
  function IsEnabled(m: Mapper, f: Feature): Option<bool> {
    if f in m.settings then Some(m.settings[f]) else None
  }

  /** Callback `i` is the last one to set `f`. */
  predicate LastToSet(cs: seq<Config>, f: Feature, i: int) {
    0 <= i < |cs| && cs[i].feature == f && forall j :: i < j < |cs| ==> cs[j].feature != f
  }

  lemma {:induction false} ConfiguredLastWins(cs: seq<Config>, f: Feature)
    ensures f in Configured(cs) <==> exists i :: 0 <= i < |cs| && cs[i].feature == f
    ensures forall i :: LastToSet(cs, f, i) ==> f in Configured(cs) && Configured(cs)[f] == cs[i].state
    decreases |cs|
  {
    if cs != [] {
      var init := cs[..|cs| - 1];
      ConfiguredLastWins(init, f);
      forall i | LastToSet(cs, f, i) ensures f in Configured(cs) && Configured(cs)[f] == cs[i].state {
        if i < |cs| - 1 {
          assert LastToSet(init, f, i);
        }
      }
      if f !in Configured(cs) {
        forall i | 0 <= i < |cs| ensures cs[i].feature != f {
          if i < |cs| - 1 {
            assert init[i] == cs[i];
          }
        }
      } else if cs[|cs| - 1].feature != f {
        var i :| 0 <= i < |init| && init[i].feature == f;
        assert cs[i] == init[i];
      }
    }
  }

  /**
   * The built mapper fails on unknown properties whatever the callbacks say;
   * every other feature has the state the last callback setting it gave, and
   * the library default when none did.
   */
  lemma BuildSettings(cs: seq<Config>, f: Feature)
    ensures f == FailOnUnknownProperties ==> IsEnabled(Build(cs), f) == Some(true)
    ensures f != FailOnUnknownProperties && (forall i :: 0 <= i < |cs| ==> cs[i].feature != f) ==>
      IsEnabled(Build(cs), f) == None
    ensures forall i :: f != FailOnUnknownProperties && LastToSet(cs, f, i) ==> IsEnabled(Build(cs), f) == Some(cs[i].state)
  {
    ConfiguredLastWins(cs, f);
  }

  /** The static state of `JsonPatchUtil` that concerns the default mapper. */
  class MapperRegistry {
    /** DEFAULT_MAPPER_CONFIGURATIONS */
    var pending: seq<Config>
    /** frozen */
    var frozen: bool
    /** DEFAULT_MAPPER */
    var mapper: Option<Mapper>

    /** The configuration is frozen exactly while a mapper exists, and nothing is pending then. */
    ghost predicate Valid()
      reads this
    {
      (frozen <==> mapper.Some?) && (frozen ==> pending == [])
    }

    constructor()
      ensures Valid() && pending == [] && !frozen && mapper == None
    {
      pending := [];
      frozen := false;
      mapper := None;
    }

    /** `configureMapper`: a null callback or a frozen configuration is refused and nothing changes. */
    method ConfigureMapper(c: Option<Config>) returns (r: Outcome<PatchError>)
      requires Valid()
      modifies this
      ensures Valid()
      ensures c.None? ==> r == Fail(NullConfiguration) && unchanged(this)
      ensures c.Some? && old(frozen) ==> r == Fail(ConfigurationFrozen) && unchanged(this)
      ensures c.Some? && !old(frozen) ==>
        r == Pass && pending == old(pending) + [c.value] && !frozen && mapper == None
    {
      if c.None? {
        return Fail(NullConfiguration);
      }
      if frozen {
        return Fail(ConfigurationFrozen);
      }
      pending := pending + [c.value];
      r := Pass;
    }

    /** `build()`: freezes, applies the pending callbacks in order, forces the unknown-property check, clears the list. */
    method BuildMapper() returns (m: Mapper)
      modifies this
      ensures m == Build(old(pending))
      ensures frozen && pending == [] && mapper == old(mapper)
    {
      frozen := true;
      var builder: Settings := map[];
      for i := 0 to |pending|
        invariant builder == Configured(pending[..i])
      {
        assert pending[..i + 1][..i] == pending[..i];
        builder := Accept(builder, pending[i]);
      }
      assert pending[..|pending|] == pending;
      builder := builder[FailOnUnknownProperties := true];
      pending := [];
      m := Mapper(builder);
    }

    /** `getDefaultMapper`: the kept mapper, or one built now from the pending callbacks and kept. */
    method GetDefaultMapper() returns (m: Mapper)
      requires Valid()
      modifies this
      ensures Valid()
      ensures old(mapper).Some? ==> m == old(mapper).value && unchanged(this)
      ensures old(mapper).None? ==> m == Build(old(pending)) && mapper == Some(m) && frozen && pending == []
    {
      if mapper.Some? {
        return mapper.value;
      }
      m := BuildMapper();
      mapper := Some(m);
    }

    /** `resetForTesting`: allowed only under the testing switch; then back to the initial state. */
    method ResetForTesting(allowed: bool) returns (r: Outcome<PatchError>)
      requires Valid()
      modifies this
      ensures Valid()
      ensures !allowed ==> r == Fail(ResetNotAllowed) && unchanged(this)
      ensures allowed ==> r == Pass && pending == [] && mapper == None && !frozen
    {
      if !allowed {
        return Fail(ResetNotAllowed);
      }
      pending := [];
      mapper := None;
      frozen := false;
      r := Pass;
    }
  }

  /** A callback registered before first use shows in the mapper. */
  method ConfigureThenUse() returns (indent: Option<bool>)
    ensures indent == Some(true)
  {
    var registry := new MapperRegistry();
    var _ := registry.ConfigureMapper(Some(Configure(IndentOutput, true)));
    var m := registry.GetDefaultMapper();
    BuildSettings([Configure(IndentOutput, true)], IndentOutput);
    assert LastToSet([Configure(IndentOutput, true)], IndentOutput, 0);
    indent := IsEnabled(m, IndentOutput);
  }

  /** A callback registered after first use is refused and the mapper in use keeps its settings. */
  method ConfigureAfterUse() returns (r: Outcome<PatchError>, indent: Option<bool>, same: bool)
    ensures r == Fail(ConfigurationFrozen) && indent == None && same
  {
    var registry := new MapperRegistry();
    var m := registry.GetDefaultMapper();
    r := registry.ConfigureMapper(Some(Configure(IndentOutput, true)));
    var m' := registry.GetDefaultMapper();
    BuildSettings([], IndentOutput);
    indent := IsEnabled(m', IndentOutput);
    same := m == m';
  }

  /** Without the testing switch a reset is refused and the mapper stays. */
  method ResetRefused() returns (r: Outcome<PatchError>, same: bool)
    ensures r == Fail(ResetNotAllowed) && same
  {
    var registry := new MapperRegistry();
    var m := registry.GetDefaultMapper();
    r := registry.ResetForTesting(false);
    var m' := registry.GetDefaultMapper();
    same := m == m';
  }

  /** A reset under the testing switch lets callbacks be registered again, and they take effect. */
  method ResetThenConfigure() returns (r: Outcome<PatchError>, indent: Option<bool>)
    ensures r == Pass && indent == Some(true)
  {
    var registry := new MapperRegistry();
    var _ := registry.GetDefaultMapper();
    var _ := registry.ResetForTesting(true);
    r := registry.ConfigureMapper(Some(Configure(IndentOutput, true)));
    var m := registry.GetDefaultMapper();
    assert LastToSet([Configure(IndentOutput, true)], IndentOutput, 0);
    BuildSettings([Configure(IndentOutput, true)], IndentOutput);
    indent := IsEnabled(m, IndentOutput);
  }
}
