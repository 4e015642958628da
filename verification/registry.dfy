/** The environment registry: a mapping from canonical identifier to spec,
    kept in registration order, extended by `register` and read by `make` and
    `registered_environments`. Jumanji's process-wide registry is
    passed here as an explicit value, and every operation returns its result
    (or its error) instead of raising or mutating; a failed operation hands
    back no registry, so the caller's registry is left as it was. Keyword
    argument values are of the type parameter `V`. */
module Registry {
  import opened Results
  import opened EnvId
  import opened EntryPoint

  /** A registered environment: its canonical identifier, the entry point its
      constructor is loaded from, default constructor arguments, and the name
      and version parsed from the identifier when the spec is built. */
  datatype EnvSpec<V> = EnvSpec(
    id: string,
    entryPoint: string,
    kwargs: map<string, V>,
    name: string,
    version: nat)

  /** The registry's specs in registration order. */
  type Registry<V> = seq<EnvSpec<V>>

  /** What `make` hands to the loaded constructor: the module and attribute
      the entry point names, the positional arguments, and the merged keyword
      arguments. */
  datatype Construction<V> = Construction(
    moduleName: string,
    attrName: string,
    args: seq<V>,
    kwargs: map<string, V>)

  /** Building a spec: the post-init step parses the identifier into the
      spec's name and version, and fails as parsing does. */
  function NewSpec<V>(id: string, entryPoint: string, kwargs: map<string, V>): (r: Result<EnvSpec<V>>)
    ensures r.Ok? <==> IsLegalName(id)
    ensures r.Err? ==> r.error == MalformedId(id)
    ensures r.Ok? ==> r.value.id == id && r.value.entryPoint == entryPoint && r.value.kwargs == kwargs
    ensures r.Ok? ==> (r.value.name, r.value.version) == Reference(id)
  {
    var p :- Parse(id);
    Ok(EnvSpec(id, entryPoint, kwargs, p.0, p.1))
  }

  /** `registered_environments`: the registered identifiers in registration
      order. */
  function RegisteredEnvironments<V>(reg: Registry<V>): (r: seq<string>)
    ensures |r| == |reg|
    ensures forall i :: 0 <= i < |reg| ==> r[i] == reg[i].id
  {
    seq(|reg|, i requires 0 <= i < |reg| => reg[i].id)
  }

  predicate NameRegistered<V>(reg: Registry<V>, name: string) {
    exists i :: 0 <= i < |reg| && reg[i].name == name
  }

  /** Dictionary lookup by identifier. */
  function Find<V>(reg: Registry<V>, id: string): (r: Option<EnvSpec<V>>)
    ensures r.Some? <==> id in RegisteredEnvironments(reg)
    ensures r.Some? ==> r.value.id == id && r.value in reg
    decreases |reg|
  {
    if |reg| == 0 then
      None
    else if reg[0].id == id then
      Some(reg[0])
    else
      assert RegisteredEnvironments(reg) == [reg[0].id] + RegisteredEnvironments(reg[1..]);
      Find(reg[1..], id)
  }

  /** The highest version registered under `name`, or None when no version
      of it is registered. */
  function LatestVersion<V>(reg: Registry<V>, name: string): (r: Option<nat>)
    ensures r.None? <==> !NameRegistered(reg, name)
    ensures r.Some? ==> exists i :: 0 <= i < |reg| && reg[i].name == name && reg[i].version == r.value
    ensures r.Some? ==> forall i :: 0 <= i < |reg| && reg[i].name == name ==> reg[i].version <= r.value
    decreases |reg|
  {
    if |reg| == 0 then
      None
    else
      var rest := LatestVersion(reg[1..], name);
      assert forall i :: 1 <= i < |reg| ==> reg[i] == reg[1..][i - 1];
      if reg[0].name != name then
        rest
      else
        match rest
        case None => Some(reg[0].version)
        case Some(v) => Some(if v < reg[0].version then reg[0].version else v)
  }

  /** `_check_registration_is_allowed`: the duplicate check comes first; a
      non-zero version is then refused only when no version of its name is
      registered. Which versions are registered is not otherwise checked. */
  function CheckRegistrationIsAllowed<V>(reg: Registry<V>, spec: EnvSpec<V>): (r: Option<Error>)
    ensures spec.id in RegisteredEnvironments(reg) ==> r == Some(AlreadyRegistered(spec.id))
    ensures spec.id !in RegisteredEnvironments(reg) && spec.version != 0 && !NameRegistered(reg, spec.name) ==>
              r == Some(FirstVersionNotZero(spec.version))
    ensures r.None? <==> spec.id !in RegisteredEnvironments(reg) && (spec.version == 0 || NameRegistered(reg, spec.name))
  {
    if spec.id in RegisteredEnvironments(reg) then
      Some(AlreadyRegistered(spec.id))
    else if LatestVersion(reg, spec.name).None? && spec.version != 0 then
      Some(FirstVersionNotZero(spec.version))
    else
      None
  }

  /** `register`: canonicalise the identifier, build the spec, check it and
      append it. Errors come in the order parse, duplicate, first version. */
  function Register<V>(reg: Registry<V>, id: string, entryPoint: string, kwargs: map<string, V>): (r: Result<Registry<V>>)
    ensures Parse(id).Err? ==> r == Err(MalformedId(id))
    ensures Canonicalize(id).Ok? && Canonicalize(id).value in RegisteredEnvironments(reg) ==>
              r == Err(AlreadyRegistered(Canonicalize(id).value))
    ensures Canonicalize(id).Ok? && Canonicalize(id).value !in RegisteredEnvironments(reg) ==>
              (r.Err? <==> Parse(id).value.1 != 0 && !NameRegistered(reg, Parse(id).value.0))
    ensures Canonicalize(id).Ok? && Canonicalize(id).value !in RegisteredEnvironments(reg) && r.Err? ==>
              r.error == FirstVersionNotZero(Parse(id).value.1)
    ensures r.Ok? ==> Parse(id).Ok? && r.value == reg + [EnvSpec(Canonicalize(id).value, entryPoint, kwargs,
                                                                Parse(id).value.0, Parse(id).value.1)]
  {
    var p :- Parse(id);
    var key := GetEnvId(p.0, Some(p.1));
    RoundTrip(p.0, p.1);
    match NewSpec(key, entryPoint, kwargs)
    case Err(e) => Err(e)
    case Ok(spec) =>
      match CheckRegistrationIsAllowed(reg, spec)
      case Some(e) => Err(e)
      case None => Ok(reg + [spec])
  }

  /** The keyword arguments a construction receives: a copy of the stored
      defaults, updated with the call's, so every key of either map is
      present and the call-time value wins. */
  function MergeKwargs<V>(stored: map<string, V>, call: map<string, V>): (r: map<string, V>)
    ensures r.Keys == stored.Keys + call.Keys
    ensures forall k :: k in call ==> r[k] == call[k]
    ensures forall k :: k in stored && k !in call ==> r[k] == stored[k]
    ensures call == map[] ==> r == stored
  {
    stored + call
  }

  /** `make` up to the constructor call: canonicalise the identifier, look it
      up (an unknown identifier fails with every registered identifier in
      order), merge the keyword arguments and split the entry point. */
  function Make<V>(reg: Registry<V>, id: string, args: seq<V>, kwargs: map<string, V>): (r: Result<Construction<V>>)
    ensures Parse(id).Err? ==> r == Err(MalformedId(id))
    ensures Canonicalize(id).Ok? && Canonicalize(id).value !in RegisteredEnvironments(reg) ==>
              r == Err(Unregistered(Canonicalize(id).value, RegisteredEnvironments(reg)))
    ensures Canonicalize(id).Ok? && Canonicalize(id).value in RegisteredEnvironments(reg) ==>
              var spec := Find(reg, Canonicalize(id).value).value;
                  && (r.Ok? <==> SplitEntryPoint(spec.entryPoint).Ok?)
                  && (r.Err? ==> r.error == MalformedEntryPoint(spec.entryPoint))
                  && (r.Ok? ==> r.value.moduleName + ":" + r.value.attrName == spec.entryPoint
                                && r.value.args == args
                                && r.value.kwargs == MergeKwargs(spec.kwargs, kwargs))
  {
    var key :- Canonicalize(id);
    match Find(reg, key)
    case None => Err(Unregistered(key, RegisteredEnvironments(reg)))
    case Some(spec) =>
      var merged := MergeKwargs(spec.kwargs, kwargs);
      var parts :- SplitEntryPoint(spec.entryPoint);
      Ok(Construction(parts.0, parts.1, args, merged))
  }

  // Registry invariants

  /** No two specs share an identifier. */
  ghost predicate UniqueIds<V>(reg: Registry<V>) {
    forall i, j :: 0 <= i < j < |reg| ==> reg[i].id != reg[j].id
  }

  /** Every spec is keyed by the canonical identifier of its legal name and
      version. */
  ghost predicate CanonicalEntries<V>(reg: Registry<V>) {
    forall i :: 0 <= i < |reg| ==>
      IsLegalName(reg[i].name) && reg[i].id == GetEnvId(reg[i].name, Some(reg[i].version))
  }

  /** The version 0 of `name` is registered. */
  ghost predicate HasVersionZero<V>(reg: Registry<V>, name: string) {
    exists j :: 0 <= j < |reg| && reg[j].name == name && reg[j].version == 0
  }

  /** Every registered name has its version 0 registered. */
  ghost predicate VersionZeroRegistered<V>(reg: Registry<V>) {
    forall i :: 0 <= i < |reg| ==> HasVersionZero(reg, reg[i].name)
  }

  ghost predicate Valid<V>(reg: Registry<V>) {
    UniqueIds(reg) && CanonicalEntries(reg) && VersionZeroRegistered(reg)
  }

  /** Lookup in a registry with one more spec at the end. */
  lemma {:induction false} FindAppend<V>(reg: Registry<V>, spec: EnvSpec<V>, id: string)
    ensures Find(reg + [spec], id) ==
              if id in RegisteredEnvironments(reg) then Find(reg, id)
              else if spec.id == id then Some(spec)
              else None
    decreases |reg|
  {
    if |reg| > 0 && reg[0].id != id {
      assert (reg + [spec])[1..] == reg[1..] + [spec];
      assert RegisteredEnvironments(reg) == [reg[0].id] + RegisteredEnvironments(reg[1..]);
      FindAppend(reg[1..], spec, id);
    }
  }

  /** In a registry with unique identifiers, looking up a spec's identifier
      finds that spec. */
  lemma {:induction false} FindRegistered<V>(reg: Registry<V>, i: nat)
    requires UniqueIds(reg) && i < |reg|
    ensures Find(reg, reg[i].id) == Some(reg[i])
    decreases i
  {
    if i > 0 {
      assert reg[i] == reg[1..][i - 1];
      FindRegistered(reg[1..], i - 1);
    }
  }

  lemma AppendKeepsUniqueIds<V>(reg: Registry<V>, spec: EnvSpec<V>)
    requires UniqueIds(reg) && spec.id !in RegisteredEnvironments(reg)
    ensures UniqueIds(reg + [spec])
  {
    var reg' := reg + [spec];
    forall i, j | 0 <= i < j < |reg'|
      ensures reg'[i].id != reg'[j].id
    {
      assert reg'[i] == reg[i];
      if j == |reg| {
        assert RegisteredEnvironments(reg)[i] == reg[i].id;
      } else {
        assert reg'[j] == reg[j];
      }
    }
  }

  lemma AppendKeepsCanonicalEntries<V>(reg: Registry<V>, spec: EnvSpec<V>)
    requires CanonicalEntries(reg)
    requires IsLegalName(spec.name) && spec.id == GetEnvId(spec.name, Some(spec.version))
    ensures CanonicalEntries(reg + [spec])
  {
    var reg' := reg + [spec];
    forall i | 0 <= i < |reg'|
      ensures IsLegalName(reg'[i].name) && reg'[i].id == GetEnvId(reg'[i].name, Some(reg'[i].version))
    {
      if i < |reg| {
        assert reg'[i] == reg[i];
      }
    }
  }

  lemma AppendKeepsVersionZero<V>(reg: Registry<V>, spec: EnvSpec<V>)
    requires VersionZeroRegistered(reg)
    requires spec.version == 0 || NameRegistered(reg, spec.name)
    ensures VersionZeroRegistered(reg + [spec])
  {
    var reg' := reg + [spec];
    forall i | 0 <= i < |reg'|
      ensures HasVersionZero(reg', reg'[i].name)
    {
      var j;
      if i < |reg| {
        assert reg'[i] == reg[i];
        assert HasVersionZero(reg, reg[i].name);
        j :| 0 <= j < |reg| && reg[j].name == reg[i].name && reg[j].version == 0;
        assert reg'[j] == reg[j];
      } else if spec.version != 0 {
        var k :| 0 <= k < |reg| && reg[k].name == spec.name;
        assert HasVersionZero(reg, reg[k].name);
        j :| 0 <= j < |reg| && reg[j].name == reg[k].name && reg[j].version == 0;
        assert reg'[j] == reg[j];
      } else {
        j := i;
      }
      assert 0 <= j < |reg'| && reg'[j].name == reg'[i].name && reg'[j].version == 0;
    }
  }

  /** Appending a spec the registration checks let through keeps the
      registry invariants. */
  lemma AppendPreservesValid<V>(reg: Registry<V>, spec: EnvSpec<V>)
    requires Valid(reg)
    ensures IsLegalName(spec.name) && spec.id == GetEnvId(spec.name, Some(spec.version)) &&
            CheckRegistrationIsAllowed(reg, spec).None? ==>
              Valid(reg + [spec])
  {
    if IsLegalName(spec.name) && spec.id == GetEnvId(spec.name, Some(spec.version)) &&
       CheckRegistrationIsAllowed(reg, spec).None? {
      AppendKeepsUniqueIds(reg, spec);
      AppendKeepsCanonicalEntries(reg, spec);
      AppendKeepsVersionZero(reg, spec);
    }
  }

  /** A successful registration lists exactly one more identifier, the
      canonical one, last. */
  lemma RegisterAppendsKey<V>(reg: Registry<V>, id: string, entryPoint: string, kwargs: map<string, V>)
    ensures var r := Register(reg, id, entryPoint, kwargs);
            r.Ok? ==> RegisteredEnvironments(r.value) == RegisteredEnvironments(reg) + [Canonicalize(id).value]
  {
    var r := Register(reg, id, entryPoint, kwargs);
    if r.Ok? {
      var p := Parse(id).value;
      var spec := EnvSpec(Canonicalize(id).value, entryPoint, kwargs, p.0, p.1);
      assert r.value == reg + [spec];
    }
  }

  /** A successful registration keeps the registry invariants. */
  lemma RegisterPreservesValid<V>(reg: Registry<V>, id: string, entryPoint: string, kwargs: map<string, V>)
    requires Valid(reg)
    ensures var r := Register(reg, id, entryPoint, kwargs);
            r.Ok? ==> Valid(r.value)
  {
    var r := Register(reg, id, entryPoint, kwargs);
    if r.Ok? {
      var p := Parse(id).value;
      var spec := EnvSpec(Canonicalize(id).value, entryPoint, kwargs, p.0, p.1);
      assert r.value == reg + [spec];
      assert IsLegalName(spec.name) && spec.id == GetEnvId(spec.name, Some(spec.version));
      AppendPreservesValid(reg, spec);
    }
  }

  /** After a successful registration the canonical identifier looks up the
      new spec and every other identifier looks up what it did before. */
  lemma RegisterChangesOnlyItsKey<V>(reg: Registry<V>, id: string, entryPoint: string, kwargs: map<string, V>,
                                     other: string)
    ensures var r := Register(reg, id, entryPoint, kwargs);
            r.Ok? ==>
              if other == Canonicalize(id).value then
                Find(r.value, other).Some? && Find(r.value, other).value.entryPoint == entryPoint
                && Find(r.value, other).value.kwargs == kwargs
              else
                Find(r.value, other) == Find(reg, other)
  {
    var r := Register(reg, id, entryPoint, kwargs);
    if r.Ok? {
      var p := Parse(id).value;
      var spec := EnvSpec(Canonicalize(id).value, entryPoint, kwargs, p.0, p.1);
      assert r.value == reg + [spec];
      FindAppend(reg, spec, other);
      if other !in RegisteredEnvironments(reg) {
        assert Find(reg, other).None?;
      }
    }
  }

  /** In a valid registry no two specs share a name and version. */
  lemma NameVersionUnique<V>(reg: Registry<V>, i: nat, j: nat)
    requires Valid(reg) && i < j < |reg|
    ensures (reg[i].name, reg[i].version) != (reg[j].name, reg[j].version)
  {
    GetEnvIdInjective(reg[i].name, reg[i].version, reg[j].name, reg[j].version);
  }

  /** Making a registered identifier whose entry point splits builds the
      construction from the stored spec. */
  lemma MakeFound<V>(reg: Registry<V>, id: string, args: seq<V>, call: map<string, V>)
    ensures Canonicalize(id).Ok? && Find(reg, Canonicalize(id).value).Some? &&
            SplitEntryPoint(Find(reg, Canonicalize(id).value).value.entryPoint).Ok? ==>
              var spec := Find(reg, Canonicalize(id).value).value;
              var parts := SplitEntryPoint(spec.entryPoint).value;
              Make(reg, id, args, call) == Ok(Construction(parts.0, parts.1, args, MergeKwargs(spec.kwargs, call)))
  {
  }

  /** Looking up a spec by any identifier that canonicalises to its key
      yields a construction from its entry point with its default keyword
      arguments, overridden by the call-time ones. */
  lemma MakeAfterRegister<V>(reg: Registry<V>, id: string, entryPoint: string, kwargs: map<string, V>,
                             other: string, args: seq<V>, call: map<string, V>)
    ensures Register(reg, id, entryPoint, kwargs).Ok? && Canonicalize(other) == Canonicalize(id) &&
            Occurrences(entryPoint, ':') == 1 ==>
              var r := Make(Register(reg, id, entryPoint, kwargs).value, other, args, call);
              && r.Ok?
              && r.value.moduleName + ":" + r.value.attrName == entryPoint
              && r.value.args == args
              && r.value.kwargs == MergeKwargs(kwargs, call)
  {
    var r := Register(reg, id, entryPoint, kwargs);
    if r.Ok? && Canonicalize(other) == Canonicalize(id) && Occurrences(entryPoint, ':') == 1 {
      var key := Canonicalize(id).value;
      RegisterChangesOnlyItsKey(reg, id, entryPoint, kwargs, key);
      MakeFound(r.value, other, args, call);
    }
  }

  /** Registering a name's version 0 into a registry without that name
      succeeds. */
  lemma RegisterVersionZero<V>(reg: Registry<V>, name: string, entryPoint: string, kwargs: map<string, V>)
    requires CanonicalEntries(reg) && IsLegalName(name) && !NameRegistered(reg, name)
    ensures Register(reg, name + "-v0", entryPoint, kwargs) == Ok(reg + [EnvSpec(name + "-v0", entryPoint, kwargs, name, 0)])
  {
    RoundTrip(name, 0);
    var key := GetEnvId(name, Some(0));
    assert key == name + "-v0";
    if key in RegisteredEnvironments(reg) {
      var i :| 0 <= i < |reg| && reg[i].id == key;
      GetEnvIdInjective(reg[i].name, reg[i].version, name, 0);
    }
  }

  /** Once some version of a name is registered, any fresh version of it is
      accepted: versions in between are not required. */
  lemma RegisterAnyLaterVersion<V>(reg: Registry<V>, name: string, version: nat,
                                  entryPoint: string, kwargs: map<string, V>)
    requires CanonicalEntries(reg) && IsLegalName(name) && NameRegistered(reg, name)
    requires forall i :: 0 <= i < |reg| && reg[i].name == name ==> reg[i].version != version
    ensures Register(reg, GetEnvId(name, Some(version)), entryPoint, kwargs).Ok?
  {
    RoundTrip(name, version);
    var key := GetEnvId(name, Some(version));
    if key in RegisteredEnvironments(reg) {
      var i :| 0 <= i < |reg| && reg[i].id == key;
      GetEnvIdInjective(reg[i].name, reg[i].version, name, version);
    }
  }

  /** The registry starts empty, and the empty registry keeps the
      invariants. */
  lemma EmptyRegistryValid<V>()
    ensures Valid<V>([])
    ensures RegisteredEnvironments<V>([]) == []
  {
  }

  /** Registering an identifier again, under any spelling with the same
      canonical form, fails as a duplicate. */
  lemma RegisterTwiceFails<V>(reg: Registry<V>, id: string, entryPoint: string, kwargs: map<string, V>,
                              again: string, entryPoint': string, kwargs': map<string, V>)
    ensures var r := Register(reg, id, entryPoint, kwargs);
            r.Ok? && Canonicalize(again) == Canonicalize(id) ==>
              Register(r.value, again, entryPoint', kwargs') == Err(AlreadyRegistered(Canonicalize(id).value))
  {
    RegisterAppendsKey(reg, id, entryPoint, kwargs);
  }

  /** A non-zero version of a name none of whose versions is registered is
      refused, whatever else the registry holds. */
  lemma FirstVersionMustBeZero<V>(reg: Registry<V>, name: string, version: nat,
                                  entryPoint: string, kwargs: map<string, V>)
    requires CanonicalEntries(reg) && IsLegalName(name) && !NameRegistered(reg, name) && version != 0
    ensures Register(reg, GetEnvId(name, Some(version)), entryPoint, kwargs) == Err(FirstVersionNotZero(version))
  {
    RoundTrip(name, version);
    var key := GetEnvId(name, Some(version));
    if key in RegisteredEnvironments(reg) {
      var i :| 0 <= i < |reg| && reg[i].id == key;
      GetEnvIdInjective(reg[i].name, reg[i].version, name, version);
    }
  }
}
