/**
 * `UnityRegistry`: the client-side registry.  Its default instance for a
 * contract is the transparent proxy of a `Proxy<T>` made for the configured
 * server address, and it listens for the `Faulted` event of every
 * communication object it hands out.  When one faults, it is aborted,
 * unsubscribed, and only the first mapping for its contract type is
 * registered again.
 *
 * Creating the `Proxy<T>` through reflection is outside the model: the
 * proxy, its channel and its client come from `Environment.createProxy`.
 */
module UnityRegistry {
  import opened Wrappers
  import opened Types
  import opened UnityRegistryBase
  import Proxies

  /** `typeof(ICommunicationObject)`. */
  const CommunicationObjectType: TypeDesc :=
    TypeDesc("ICommunicationObject", "System.ServiceModel.ICommunicationObject", "System.ServiceModel", Interface,
             false, false, None, [], None, [], [], [], [], [])

  /** `typeof(IDisposable)`. */
  const DisposableType: TypeDesc :=
    TypeDesc("IDisposable", "System.IDisposable", "mscorlib", Interface,
             false, false, None, [], None, [], [], [], [], [])

  /** `typeof(Proxy<>)`: a sealed class implementing only `IDisposable`, its constructors private. */
  const ProxyDefinition: TypeDesc :=
    TypeDesc("Proxy`1", "WcfAbstraction.Server.Proxies.Proxy`1", "WcfAbstraction.Server.Contracts", Class,
             false, true, None, [], Some(ObjectType), [DisposableType], [], [Ctor(false, false, 1)], [], [])

  /** `Proxy<contract>`. */
  function ProxyOf(contract: TypeDesc): (t: TypeDesc)
    ensures RawType(t) == ProxyDefinition && !t.isGenericTypeDefinition
  {
    ProxyDefinition.(isGenericTypeDefinition := false, genericDefinition := Some(ProxyDefinition), typeArguments := [contract])
  }

  /** `instance is ICommunicationObject`. */
  predicate IsCommunicationObject(o: Obj) {
    IsAssignableFrom(CommunicationObjectType, o.runtimeType)
  }

  const ProxyInstanceMessage := "Type of service contract to load cannot be of Proxy<> type, use transparent (real) proxy instead"

  function ProxyNotCreatedMessage(contract: string, serverAddress: string): string {
    "Proxy of your contract type '" + contract + "' cannot be invoke with the given server address '" + serverAddress + "'"
  }

  function NoTransparentProxyMessage(contract: string): string {
    "Transparent proxy of '" + contract + "' cannot be established"
  }

  /**
   * What `Proxy<T>.Create(ServerAddress)` gives through reflection: the proxy
   * (or null), its `Channel` (or null), and the client behind the channel.
   */
  datatype CreatedProxy = CreatedProxy(proxy: Option<Obj>, channel: Option<Obj>, client: Obj)

  /** What the registry reads but does not control: type resolution and proxy creation. */
  datatype Environment = Environment(types: map<string, TypeDesc>, createProxy: (TypeDesc, Option<string>) -> CreatedProxy)

  /** The configuration `Reload` reads: `ServerName`, `PortNumber` and the ordered mappings. */
  datatype Configuration = Configuration(serverName: Option<string>, portNumber: Option<string>, mappings: seq<Mapping>)

  // ----- the check on registered instances, as written and as intended -----

  /** The check as written: the instance's type is `Proxy<>` itself. */
  predicate IsOpenProxyType(t: TypeDesc) {
    t == ProxyDefinition
  }

  /** No object has an open generic type, so the check as written never rejects one. */
  lemma OpenProxyCheckNeverFires(o: Obj)
    requires !o.runtimeType.isGenericTypeDefinition
    ensures !IsOpenProxyType(o.runtimeType)
  {
  }

  /** A `Proxy<T>` instance, which is not a communication object, passes the check as written. */
  lemma ProxyInstancePassesCheck(contract: TypeDesc, id: nat)
    ensures var o := Obj(id, ProxyOf(contract));
      !IsCommunicationObject(o) && !IsOpenProxyType(o.runtimeType)
  {
    var t := ProxyOf(contract);
    assert t.interfaces == [DisposableType] && t.baseType == Some(ObjectType);
    assert !IsAssignableFrom(CommunicationObjectType, ObjectType);
  }

  /** The check intended: the instance's type is `Proxy<>` or constructed from it. */
  predicate IsProxyType(t: TypeDesc) {
    RawType(t) == ProxyDefinition
  }

  /** The intended check rejects every `Proxy<T>` and accepts every type not built from `Proxy<>`. */
  lemma ProxyTypeRejectedAsIntended(contract: TypeDesc, t: TypeDesc)
    ensures IsProxyType(ProxyOf(contract))
    ensures !t.isGenericTypeDefinition && t.genericDefinition != Some(ProxyDefinition) && t != ProxyDefinition ==> !IsProxyType(t)
  {
  }

  // ----- the default instance -----

  /**
   * `CreateDefaultInstance`: the channel of the proxy made for the server
   * address, failing when the proxy or its channel is null.
   */
  function DefaultInstanceOf(contractType: TypeDesc, serverAddress: Option<string>, created: CreatedProxy)
    : (r: Result<Obj, RegistryError>)
    ensures r.Ok? <==> created.proxy.Some? && created.channel.Some?
    ensures r.Ok? ==> r.value == created.channel.value
    ensures created.proxy.None? ==> r == Err(Exception(ProxyNotCreatedMessage(contractType.fullName, serverAddress.GetOr(""))))
    ensures created.proxy.Some? && created.channel.None? ==> r == Err(Exception(NoTransparentProxyMessage(contractType.fullName)))
  {
    if created.proxy.None? then Err(Exception(ProxyNotCreatedMessage(contractType.fullName, serverAddress.GetOr(""))))
    else if created.channel.None? then Err(Exception(NoTransparentProxyMessage(contractType.fullName)))
    else Ok(created.channel.value)
  }

  // ----- registering mappings -----

  /** The registry's state while mappings are registered, with the exception that stopped a release build. */
  datatype Registrations = Registrations(table: Table, subscribed: multiset<Obj>, nextId: nat, error: Option<RegistryError>)

  /**
   * `RegisterMapping`: the shared resolution without the null checks; the
   * default branch binds the new proxy's channel and subscribes its client.
   * A DEBUG build swallows the failure of a mapping.
   */
  function MappingStep(env: Environment, serverAddress: Option<string>, debug: bool, s: Registrations, m: Mapping): Registrations {
    if s.error.Some? then s
    else
      var entry := ResolveEntry(env.types, m, false, s.nextId);
      if entry.Err? then (if debug then s else s.(error := Some(entry.error)))
      else
        var contract := entry.value.0;
        if entry.value.1.Instance? then
          Registrations(s.table[contract := entry.value.1.value], s.subscribed, s.nextId + 1, None)
        else
          var created := env.createProxy(contract, serverAddress);
          var channel := DefaultInstanceOf(contract, serverAddress, created);
          if channel.Err? then (if debug then s else s.(error := Some(channel.error)))
          else Registrations(s.table[contract := Some(channel.value)], s.subscribed + multiset{created.client}, s.nextId, None)
  }

  /** A mapping binds at most its own contract type, keeps every subscription, and adds at most its proxy's client. */
  lemma MappingStepBindsOnlyItsContract(env: Environment, serverAddress: Option<string>, debug: bool, s: Registrations, m: Mapping)
    ensures var t := MappingStep(env, serverAddress, debug, s, m).table;
      forall c :: (m.contractType !in env.types || c != env.types[m.contractType]) ==>
        (c in t <==> c in s.table) && (c in t ==> t[c] == s.table[c])
    ensures s.subscribed <= MappingStep(env, serverAddress, debug, s, m).subscribed
    ensures |MappingStep(env, serverAddress, debug, s, m).subscribed| <= |s.subscribed| + 1
    ensures !debug && s.error.None? && MappingStep(env, serverAddress, debug, s, m).error.None? && m.contractType in env.types ==>
      env.types[m.contractType] in MappingStep(env, serverAddress, debug, s, m).table
  {
  }

  /** The loop over `mappings` in order, from `start`. */
  function RebuildMappings(env: Environment, serverAddress: Option<string>, debug: bool, start: Registrations, mappings: seq<Mapping>)
    : Registrations
    decreases |mappings|
  {
    if |mappings| == 0 then start
    else MappingStep(env, serverAddress, debug, RebuildMappings(env, serverAddress, debug, start, mappings[..|mappings| - 1]),
                     mappings[|mappings| - 1])
  }

  /** Once a mapping has failed in a release build, later mappings change nothing. */
  lemma {:induction false} MappingErrorPersists(env: Environment, serverAddress: Option<string>, debug: bool, start: Registrations,
                                         mappings: seq<Mapping>, k: nat)
    requires k <= |mappings| && RebuildMappings(env, serverAddress, debug, start, mappings[..k]).error.Some?
    ensures RebuildMappings(env, serverAddress, debug, start, mappings) == RebuildMappings(env, serverAddress, debug, start, mappings[..k])
    decreases |mappings| - k
  {
    if k < |mappings| {
      var prefix := mappings[..|mappings| - 1];
      assert prefix[..k] == mappings[..k];
      MappingErrorPersists(env, serverAddress, debug, start, prefix, k);
    } else {
      assert mappings[..k] == mappings;
    }
  }

  /** A rebuild never drops a subscription: the clients of earlier proxies stay subscribed. */
  lemma {:induction false} SubscriptionsAccumulate(env: Environment, serverAddress: Option<string>, debug: bool,
                                                   start: Registrations, mappings: seq<Mapping>)
    ensures start.subscribed <= RebuildMappings(env, serverAddress, debug, start, mappings).subscribed
    ensures |RebuildMappings(env, serverAddress, debug, start, mappings).subscribed| <= |start.subscribed| + |mappings|
    decreases |mappings|
  {
    if |mappings| > 0 {
      var prefix := mappings[..|mappings| - 1];
      SubscriptionsAccumulate(env, serverAddress, debug, start, prefix);
      MappingStepBindsOnlyItsContract(env, serverAddress, debug, RebuildMappings(env, serverAddress, debug, start, prefix),
                                      mappings[|mappings| - 1]);
    }
  }

  // ----- fault repair -----

  /** The first mapping at or after `from` whose contract type resolves to `t`. */
  function FirstMatchFrom(types: map<string, TypeDesc>, mappings: seq<Mapping>, t: TypeDesc, from: nat): (k: Option<nat>)
    requires from <= |mappings|
    ensures k.Some? ==>
      from <= k.value < |mappings| && mappings[k.value].contractType in types && types[mappings[k.value].contractType] == t
    ensures forall j :: from <= j < |mappings| && (k.None? || j < k.value) ==>
      !(mappings[j].contractType in types && types[mappings[j].contractType] == t)
    decreases |mappings| - from
  {
    if from == |mappings| then None
    else if mappings[from].contractType in types && types[mappings[from].contractType] == t then Some(from)
    else FirstMatchFrom(types, mappings, t, from + 1)
  }

  /** What `Proxy_Faulted` does to the registrations once the sender is unsubscribed: the first matching mapping, if any, again. */
  function Repaired(env: Environment, serverAddress: Option<string>, debug: bool, s: Registrations, mappings: seq<Mapping>, t: TypeDesc)
    : Registrations
  {
    var k := FirstMatchFrom(env.types, mappings, t, 0);
    if k.None? then s else MappingStep(env, serverAddress, debug, s, mappings[k.value])
  }

  /** Repair leaves every other contract's binding as it was. */
  lemma RepairLeavesOtherContracts(env: Environment, serverAddress: Option<string>, debug: bool, s: Registrations,
                                   mappings: seq<Mapping>, t: TypeDesc, c: TypeDesc)
    requires c != t
    ensures var r := Repaired(env, serverAddress, debug, s, mappings, t);
      (c in r.table <==> c in s.table) && (c in r.table ==> r.table[c] == s.table[c])
  {
    var k := FirstMatchFrom(env.types, mappings, t, 0);
    if k.Some? {
      MappingStepBindsOnlyItsContract(env, serverAddress, debug, s, mappings[k.value]);
    }
  }

  /** With no mapping for the faulted type nothing is registered again. */
  lemma RepairWithoutMatchChangesNothing(env: Environment, serverAddress: Option<string>, debug: bool, s: Registrations,
                                         mappings: seq<Mapping>, t: TypeDesc)
    requires forall j :: 0 <= j < |mappings| ==> !(mappings[j].contractType in env.types && env.types[mappings[j].contractType] == t)
    ensures Repaired(env, serverAddress, debug, s, mappings, t) == s
  {
  }

  /**
   * After a successful repair in a release build the faulted contract type is
   * bound, and the table differs from before only in that one binding.
   */
  lemma RepairRebindsFaultedContract(env: Environment, serverAddress: Option<string>, debug: bool, s: Registrations,
                                     mappings: seq<Mapping>, t: TypeDesc)
    requires !debug && s.error.None?
    requires exists j :: 0 <= j < |mappings| && mappings[j].contractType in env.types && env.types[mappings[j].contractType] == t
    requires Repaired(env, serverAddress, debug, s, mappings, t).error.None?
    ensures var r := Repaired(env, serverAddress, debug, s, mappings, t);
      t in r.table && r.table == s.table[t := r.table[t]]
  {
    var k := FirstMatchFrom(env.types, mappings, t, 0);
    var r := Repaired(env, serverAddress, debug, s, mappings, t);
    MappingStepBindsOnlyItsContract(env, serverAddress, debug, s, mappings[k.value]);
    assert r.table == s.table[t := r.table[t]];
  }

  /** The client registry's static state. */
  class UnityRegistry {
    /** The static `_container`; the static constructor creates it before anything else runs. */
    var container: Table
    /** The static `ServerAddress`, null until the first `Reload`. */
    var serverAddress: Option<string>
    /** The communication objects whose `Faulted` event `Proxy_Faulted` is attached to, once per attachment. */
    var subscribed: multiset<Obj>
    /** Every faulted object aborted so far, in order. */
    var aborted: seq<Obj>
    var nextId: nat
    /** Whether this is a DEBUG build. */
    const debug: bool

    /** A registry before its first `Reload`. */
    constructor(debug: bool)
      ensures container == map[] && serverAddress.None? && subscribed == multiset{} && aborted == [] && nextId == 0
      ensures this.debug == debug
    {
      container := map[];
      serverAddress := None;
      subscribed := multiset{};
      aborted := [];
      nextId := 0;
      this.debug := debug;
    }

    /**
     * `RegisterServiceInstance`: a communication object gets the fault
     * handler and is bound; an instance whose type is `Proxy<>` itself is
     * rejected; a null instance fails on `GetType()`.  Anything else is bound.
     */
    method RegisterServiceInstance(contractType: TypeDesc, instance: Option<Obj>) returns (r: Result<(), RegistryError>)
      modifies this
      ensures instance.None? ==> r == Err(NullReferenceException) && container == old(container) && subscribed == old(subscribed)
      ensures instance.Some? && IsCommunicationObject(instance.value) ==>
        r == Ok(()) && container == old(container)[contractType := instance]
        && subscribed == old(subscribed) + multiset{instance.value}
      ensures instance.Some? && !IsCommunicationObject(instance.value) && IsOpenProxyType(instance.value.runtimeType) ==>
        r == Err(ArgumentException(ProxyInstanceMessage, "instance")) && container == old(container) && subscribed == old(subscribed)
      ensures instance.Some? && !IsCommunicationObject(instance.value) && !IsOpenProxyType(instance.value.runtimeType) ==>
        r == Ok(()) && container == old(container)[contractType := instance] && subscribed == old(subscribed)
      ensures nextId == old(nextId) && serverAddress == old(serverAddress) && aborted == old(aborted)
    {
      if instance.None? {
        return Err(NullReferenceException);
      }
      if IsCommunicationObject(instance.value) {
        subscribed := subscribed + multiset{instance.value};
      } else if IsOpenProxyType(instance.value.runtimeType) {
        return Err(ArgumentException(ProxyInstanceMessage, "instance"));
      }
      container := Register(Some(container), contractType, instance);
      return Ok(());
    }

    /** `RegisterService`: a new instance of the concrete type, registered as above. */
    method RegisterService(contractType: TypeDesc, concreteType: Option<TypeDesc>) returns (r: Result<(), RegistryError>)
      modifies this
      ensures var created := CreateInstance(concreteType, true, old(nextId));
        (created.Err? ==> r == Err(created.error) && container == old(container) && subscribed == old(subscribed)
                          && nextId == old(nextId))
        && (created.Ok? && created.value.None? ==>
              r == Err(NullReferenceException) && container == old(container) && subscribed == old(subscribed)
              && nextId == old(nextId))
        && (created.Ok? && created.value.Some? ==> nextId == old(nextId) + 1)
      ensures var created := CreateInstance(concreteType, true, old(nextId));
        created.Ok? && created.value.Some? && IsCommunicationObject(created.value.value) ==>
          r == Ok(()) && container == old(container)[contractType := created.value]
          && subscribed == old(subscribed) + multiset{created.value.value}
      ensures var created := CreateInstance(concreteType, true, old(nextId));
        created.Ok? && created.value.Some? && !IsCommunicationObject(created.value.value)
        && IsOpenProxyType(created.value.value.runtimeType) ==>
          r == Err(ArgumentException(ProxyInstanceMessage, "instance")) && container == old(container)
          && subscribed == old(subscribed)
      ensures var created := CreateInstance(concreteType, true, old(nextId));
        created.Ok? && created.value.Some? && !IsCommunicationObject(created.value.value)
        && !IsOpenProxyType(created.value.value.runtimeType) ==>
          r == Ok(()) && container == old(container)[contractType := created.value] && subscribed == old(subscribed)
      ensures serverAddress == old(serverAddress) && aborted == old(aborted)
    {
      var created := CreateInstance(concreteType, true, nextId);
      if created.Err? {
        return Err(created.error);
      }
      if created.value.Some? {
        nextId := nextId + 1;
      }
      r := RegisterServiceInstance(contractType, created.value);
    }

    /** `CreateDefaultInstance`: the channel of a new proxy for the server address; its client gets the fault handler. */
    method CreateDefaultInstance(env: Environment, contractType: TypeDesc) returns (r: Result<Obj, RegistryError>)
      modifies this
      ensures var created := env.createProxy(contractType, old(serverAddress));
        r == DefaultInstanceOf(contractType, old(serverAddress), created)
        && subscribed == old(subscribed) + (if r.Ok? then multiset{created.client} else multiset{})
      ensures container == old(container) && nextId == old(nextId) && serverAddress == old(serverAddress) && aborted == old(aborted)
    {
      var created := env.createProxy(contractType, serverAddress);
      if created.proxy.None? {
        return Err(Exception(ProxyNotCreatedMessage(contractType.fullName, serverAddress.GetOr(""))));
      }
      if created.channel.None? {
        return Err(Exception(NoTransparentProxyMessage(contractType.fullName)));
      }
      subscribed := subscribed + multiset{created.client};
      return Ok(created.channel.value);
    }

    /** `SetServerAddress`: `ServerName:PortNumber` from the configuration. */
    method SetServerAddress(config: Configuration)
      modifies this
      ensures serverAddress == Some(Proxies.ServerAddressOf(config.serverName, config.portNumber))
      ensures container == old(container) && subscribed == old(subscribed) && nextId == old(nextId) && aborted == old(aborted)
    {
      serverAddress := Some(Proxies.ServerAddressOf(config.serverName, config.portNumber));
    }

    /** `RegisterMapping`: one mapping, as `MappingStep` describes; only a release build reports its failure. */
    method RegisterMapping(env: Environment, m: Mapping) returns (r: Result<(), RegistryError>)
      modifies this
      ensures var s := MappingStep(env, old(serverAddress), debug, Registrations(old(container), old(subscribed), old(nextId), None), m);
        container == s.table && subscribed == s.subscribed && nextId == s.nextId
        && (r.Ok? <==> s.error.None?) && (r.Err? ==> s.error == Some(r.error))
      ensures serverAddress == old(serverAddress) && aborted == old(aborted)
    {
      var entry := ResolveEntry(env.types, m, false, nextId);
      if entry.Err? {
        return if debug then Ok(()) else Err(entry.error);
      }
      var contract := entry.value.0;
      if entry.value.1.Instance? {
        container := container[contract := entry.value.1.value];
        nextId := nextId + 1;
        return Ok(());
      }
      var channel := CreateDefaultInstance(env, contract);
      if channel.Err? {
        return if debug then Ok(()) else Err(channel.error);
      }
      container := container[contract := Some(channel.value)];
      return Ok(());
    }

    /** `ConfigureUnityContainer`: a fresh container, then every mapping in order; a release build stops at the first failure. */
    method ConfigureUnityContainer(env: Environment, mappings: seq<Mapping>) returns (r: Result<(), RegistryError>)
      modifies this
      ensures var s := RebuildMappings(env, old(serverAddress), debug, Registrations(map[], old(subscribed), old(nextId), None), mappings);
        container == s.table && subscribed == s.subscribed && nextId == s.nextId
        && (r.Ok? <==> s.error.None?) && (r.Err? ==> s.error == Some(r.error))
      ensures serverAddress == old(serverAddress) && aborted == old(aborted)
    {
      container := map[];
      var start := Registrations(map[], subscribed, nextId, None);
      var i := 0;
      while i < |mappings|
        invariant 0 <= i <= |mappings|
        invariant RebuildMappings(env, serverAddress, debug, start, mappings[..i]) == Registrations(container, subscribed, nextId, None)
        invariant serverAddress == old(serverAddress) && aborted == old(aborted)
      {
        assert mappings[..i + 1][..i] == mappings[..i];
        r := RegisterMapping(env, mappings[i]);
        if r.Err? {
          MappingErrorPersists(env, serverAddress, debug, start, mappings, i + 1);
          return;
        }
        i := i + 1;
      }
      assert mappings[..i] == mappings;
      return Ok(());
    }

    /** `Reload`: the server address first, then the container, so every default proxy uses the new address. */
    method Reload(env: Environment, config: Configuration) returns (r: Result<(), RegistryError>)
      modifies this
      ensures serverAddress == Some(Proxies.ServerAddressOf(config.serverName, config.portNumber))
      ensures var s := RebuildMappings(env, serverAddress, debug, Registrations(map[], old(subscribed), old(nextId), None), config.mappings);
        container == s.table && subscribed == s.subscribed && nextId == s.nextId
        && (r.Ok? <==> s.error.None?) && (r.Err? ==> s.error == Some(r.error))
      ensures aborted == old(aborted)
    {
      SetServerAddress(config);
      r := ConfigureUnityContainer(env, config.mappings);
    }

    /**
     * `Proxy_Faulted`: aborts the sender, removes one attachment of the
     * handler from it, and registers again the first mapping whose contract
     * type is the sender's type.
     */
    method ProxyFaulted(env: Environment, mappings: seq<Mapping>, sender: Obj) returns (r: Result<(), RegistryError>)
      modifies this
      ensures aborted == old(aborted) + [sender]
      ensures var s := Repaired(env, old(serverAddress), debug,
                                Registrations(old(container), old(subscribed) - multiset{sender}, old(nextId), None),
                                mappings, sender.runtimeType);
        container == s.table && subscribed == s.subscribed && nextId == s.nextId
        && (r.Ok? <==> s.error.None?) && (r.Err? ==> s.error == Some(r.error))
      ensures serverAddress == old(serverAddress)
    {
      aborted := aborted + [sender];
      subscribed := subscribed - multiset{sender};
      var i := 0;
      while i < |mappings|
        invariant 0 <= i <= |mappings|
        invariant FirstMatchFrom(env.types, mappings, sender.runtimeType, i) == FirstMatchFrom(env.types, mappings, sender.runtimeType, 0)
        invariant container == old(container) && subscribed == old(subscribed) - multiset{sender} && nextId == old(nextId)
        invariant serverAddress == old(serverAddress) && aborted == old(aborted) + [sender]
      {
        var m := mappings[i];
        if m.contractType in env.types && env.types[m.contractType] == sender.runtimeType {
          r := RegisterMapping(env, m);
          return;
        }
        i := i + 1;
      }
      return Ok(());
    }
  }
}
