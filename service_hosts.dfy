/**
 * The server's host list: the declaration rules a service type must meet
 * before it is hosted, and the list of hosts with their names.
 */
module ServiceHosts {
  import opened Wrappers
  import opened Types

  /** The exception a `TypeInitializationException` wraps. */
  datatype InnerError = NotImplementedException(message: string) | Exception(message: string)

  datatype HostError =
    /** The source passes its message text as the exception's parameter name. */
    | ArgumentNullException(paramName: string)
    | TypeInitializationException(typeName: string, inner: InnerError)

  const NullServiceMessage := "Type of service to load cannot be null"
  const ServiceBehaviorTypeName := "System.ServiceModel.ServiceBehaviorAttribute"
  const ServiceContractTypeName := "System.ServiceModel.ServiceContractAttribute"

  function MissingContractMessage(s: string): string {
    "The service [" + s + "] does not implement any contract interface"
  }

  function MissingAttributeMessage(s: string, attribute: string): string {
    "The service [" + s + "] is missing mandatory [" + attribute + "] attribute."
  }

  function ContractMissingAttributeMessage(s: string, attribute: string): string {
    "The service contract [" + s + "] is missing mandatory [" + attribute + "] attribute."
  }

  function PrivateConstructorMessage(s: string): string {
    "The service [" + s + "] is missing mandatory private empty constructor."
  }

  function MultipleConstructorMessage(s: string): string {
    "The service [" + s + "] has multiple constructor. Use only one default private constructor."
  }

  // ----- declaration rules -----

  /**
   * The per-interface loop of `ValidateContractAttributesDecleration`: an
   * interface carrying `[ServiceContract]` is checked for `[ServiceContract]`.
   */
  function CheckContractInterfaces(interfaces: seq<TypeDesc>): Result<(), HostError>
    decreases |interfaces|
  {
    if |interfaces| == 0 then Ok(())
    else
      var contract := interfaces[0];
      if HasServiceContract(contract) && !HasServiceContract(contract) then
        Err(TypeInitializationException(contract.fullName,
          NotImplementedException(ContractMissingAttributeMessage(contract.fullName, ServiceContractTypeName))))
      else CheckContractInterfaces(interfaces[1..])
  }

  /** The loop's guard is its own check, so it never rejects an interface. */
  lemma {:induction false} ContractLoopNeverFails(interfaces: seq<TypeDesc>)
    ensures CheckContractInterfaces(interfaces) == Ok(())
    decreases |interfaces|
  {
    if |interfaces| > 0 {
      ContractLoopNeverFails(interfaces[1..]);
    }
  }

  /** `ValidateContractAttributesDecleration`: the service must implement at least one interface. */
  function ValidateContractAttributes(t: TypeDesc): (r: Result<(), HostError>)
    ensures r.Err? <==> |t.interfaces| == 0
    ensures r.Err? ==> r.error == TypeInitializationException(t.fullName, NotImplementedException(MissingContractMessage(t.fullName)))
  {
    ContractLoopNeverFails(t.interfaces);
    if |t.interfaces| == 0 then
      Err(TypeInitializationException(t.fullName, NotImplementedException(MissingContractMessage(t.fullName))))
    else CheckContractInterfaces(t.interfaces)
  }

  /** `ValidateServiceAttributesDecleration`: `[ServiceBehavior]` is mandatory on the service class. */
  function ValidateServiceAttributes(t: TypeDesc): (r: Result<(), HostError>)
    ensures r.Err? <==> !HasServiceBehavior(t)
    ensures r.Err? ==> r.error == TypeInitializationException(t.fullName,
      NotImplementedException(MissingAttributeMessage(t.fullName, ServiceBehaviorTypeName)))
  {
    if !HasServiceBehavior(t) then
      Err(TypeInitializationException(t.fullName, NotImplementedException(MissingAttributeMessage(t.fullName, ServiceBehaviorTypeName))))
    else Ok(())
  }

  /** The instance constructors, public or not. */
  function InstanceConstructors(ctors: seq<Ctor>): (r: seq<Ctor>)
    ensures forall c :: c in r <==> c in ctors && !c.isStatic
    decreases |ctors|
  {
    if |ctors| == 0 then []
    else (if ctors[0].isStatic then [] else [ctors[0]]) + InstanceConstructors(ctors[1..])
  }

  /**
   * `InstanceConstructors` keeps every instance constructor as often as it
   * is declared, so its length is the count that `Count() != 1` tests.
   */
  lemma {:induction false} InstanceConstructorsCounted(ctors: seq<Ctor>)
    ensures forall c :: multiset(InstanceConstructors(ctors))[c] == (if c.isStatic then 0 else multiset(ctors)[c])
    decreases |ctors|
  {
    if |ctors| > 0 {
      InstanceConstructorsCounted(ctors[1..]);
      assert ctors == [ctors[0]] + ctors[1..];
    }
  }

  /** `GetConstructor(NonPublic | Instance, no parameters)` finds one. */
  predicate HasPrivateEmptyConstructor(t: TypeDesc) {
    exists c :: c in t.constructors && !c.isStatic && !c.isPublic && c.parameterCount == 0
  }

  /**
   * `ValidateServiceDecleration`: a null type, then the contract rule, the
   * `[ServiceBehavior]` rule, a non-public parameterless constructor, and
   * exactly one instance constructor; the first rule broken is reported.
   */
  function ValidateServiceDeclaration(service: Option<TypeDesc>): (r: Result<(), HostError>)
    ensures service.None? ==> r == Err(ArgumentNullException(NullServiceMessage))
  {
    if service.None? then Err(ArgumentNullException(NullServiceMessage))
    else
      var t := service.value;
      var contract := ValidateContractAttributes(t);
      if contract.Err? then contract
      else
        var attributes := ValidateServiceAttributes(t);
        if attributes.Err? then attributes
        else if !HasPrivateEmptyConstructor(t) then
          Err(TypeInitializationException(t.fullName, Exception(PrivateConstructorMessage(t.fullName))))
        else if |InstanceConstructors(t.constructors)| != 1 then
          Err(TypeInitializationException(t.fullName, Exception(MultipleConstructorMessage(t.fullName))))
        else Ok(())
  }

  /**
   * A service type is accepted iff it implements an interface, carries
   * `[ServiceBehavior]`, and has exactly one instance constructor, which is
   * non-public and parameterless.
   */
  lemma AcceptedServiceShape(t: TypeDesc)
    ensures ValidateServiceDeclaration(Some(t)).Ok? <==>
      |t.interfaces| > 0 && HasServiceBehavior(t)
      && |InstanceConstructors(t.constructors)| == 1
      && !InstanceConstructors(t.constructors)[0].isPublic
      && InstanceConstructors(t.constructors)[0].parameterCount == 0
  {
    var ctors := InstanceConstructors(t.constructors);
    if |ctors| == 1 && !ctors[0].isPublic && ctors[0].parameterCount == 0 {
      assert ctors[0] in ctors;
    }
    if |ctors| == 1 && HasPrivateEmptyConstructor(t) {
      var c :| c in t.constructors && !c.isStatic && !c.isPublic && c.parameterCount == 0;
      assert c in ctors;
    }
  }

  /** The rules are checked in order: a service with no interface fails on that, whatever else is wrong. */
  lemma NoInterfaceReportedFirst(t: TypeDesc)
    requires |t.interfaces| == 0
    ensures ValidateServiceDeclaration(Some(t)) ==
      Err(TypeInitializationException(t.fullName, NotImplementedException(MissingContractMessage(t.fullName))))
  {
  }

  /** With interfaces present, a missing `[ServiceBehavior]` is reported before any constructor problem. */
  lemma MissingBehaviorReportedSecond(t: TypeDesc)
    requires |t.interfaces| > 0 && !HasServiceBehavior(t)
    ensures ValidateServiceDeclaration(Some(t)) ==
      Err(TypeInitializationException(t.fullName, NotImplementedException(MissingAttributeMessage(t.fullName, ServiceBehaviorTypeName))))
  {
  }

  /** A second instance constructor is rejected even beside the required private one. */
  lemma ExtraConstructorRejected(t: TypeDesc, c1: Ctor, c2: Ctor)
    requires |t.interfaces| > 0 && HasServiceBehavior(t)
    requires t.constructors == [c1, c2] && !c1.isStatic && !c1.isPublic && c1.parameterCount == 0 && !c2.isStatic
    ensures ValidateServiceDeclaration(Some(t)) ==
      Err(TypeInitializationException(t.fullName, Exception(MultipleConstructorMessage(t.fullName))))
  {
    assert c1 in t.constructors;
    assert [c1, c2][1..] == [c2];
    assert [c2][1..] == [];
  }

  // ----- the host list -----

  /** A `ServiceHost<T>`: its identity, the service type it hosts and its description name. */
  datatype ServiceHost = ServiceHost(id: nat, serviceType: TypeDesc, name: string)

  /** The description name of a host: `[ServiceBehavior(Name = …)]` when given, else the type's name. */
  function FirstBehaviorName(attributes: seq<Attribute>): Option<string>
    decreases |attributes|
  {
    if |attributes| == 0 then None
    else if attributes[0].ServiceBehaviorAttribute? && attributes[0].name.Some? then attributes[0].name
    else FirstBehaviorName(attributes[1..])
  }

  function HostName(t: TypeDesc): string {
    FirstBehaviorName(t.attributes).GetOr(t.name)
  }

  /** The hosts list after `AddService(t)` as written: the fresh host is never already listed. */
  function AddedHost(hosts: seq<ServiceHost>, id: nat, t: TypeDesc): seq<ServiceHost> {
    hosts + [ServiceHost(id, t, HostName(t))]
  }

  /** The hosts list after the intended `AddService(t)`: no second host for an already hosted type. */
  function AddedHostOnce(hosts: seq<ServiceHost>, id: nat, t: TypeDesc): seq<ServiceHost> {
    if exists i :: 0 <= i < |hosts| && hosts[i].serviceType == t then hosts
    else AddedHost(hosts, id, t)
  }

  predicate OneHostPerService(hosts: seq<ServiceHost>) {
    forall i, j :: 0 <= i < j < |hosts| ==> hosts[i].serviceType != hosts[j].serviceType
  }

  /** Adding the same service type twice as written lists two hosts for it. */
  lemma AddedTwiceHostsTwice(hosts: seq<ServiceHost>, id: nat, t: TypeDesc)
    ensures var after := AddedHost(AddedHost(hosts, id, t), id + 1, t);
      |after| == |hosts| + 2 && after[|hosts|].serviceType == t && after[|hosts| + 1].serviceType == t
      && !OneHostPerService(after)
  {
  }

  /** The intended insertion keeps at most one host per service type. */
  lemma AddedOnceKeepsOnePerService(hosts: seq<ServiceHost>, id: nat, t: TypeDesc)
    requires OneHostPerService(hosts)
    ensures OneHostPerService(AddedHostOnce(hosts, id, t))
    ensures exists i :: 0 <= i < |AddedHostOnce(hosts, id, t)| && AddedHostOnce(hosts, id, t)[i].serviceType == t
  {
    if !(exists i :: 0 <= i < |hosts| && hosts[i].serviceType == t) {
      var after := AddedHost(hosts, id, t);
      assert after[|hosts|].serviceType == t;
    }
  }

  /** The container of hosts.  Host identities are drawn from `nextHostId`. */
  class ServiceHosts {
    var serviceHosts: seq<ServiceHost>
    var nextHostId: nat

    /** Every listed host was created before, so its identity is below `nextHostId`. */
    ghost predicate Valid()
      reads this
    {
      forall i :: 0 <= i < |serviceHosts| ==> serviceHosts[i].id < nextHostId
    }

    constructor()
      ensures Valid() && serviceHosts == [] && nextHostId == 0
    {
      serviceHosts := [];
      nextHostId := 0;
    }

    /** `ServiceNames`: the hosts' description names, in list order. */
    function ServiceNames(): (names: seq<string>)
      reads this
      ensures |names| == |serviceHosts|
      ensures forall i :: 0 <= i < |names| ==> names[i] == serviceHosts[i].name
    {
      seq(|serviceHosts|, i requires 0 <= i < |serviceHosts| reads this => serviceHosts[i].name)
    }

    /**
     * `AddService` as written: validate, create a fresh host, and add it
     * unless the list already contains that (new) object.
     */
    method AddService(service: Option<TypeDesc>) returns (r: Result<(), HostError>)
      requires Valid()
      modifies this
      ensures Valid()
      ensures r == ValidateServiceDeclaration(service)
      ensures r.Ok? ==> serviceHosts == AddedHost(old(serviceHosts), old(nextHostId), service.value)
      ensures r.Ok? ==> nextHostId == old(nextHostId) + 1
      ensures r.Err? ==> serviceHosts == old(serviceHosts) && nextHostId == old(nextHostId)
    {
      r := ValidateServiceDeclaration(service);
      if r.Err? {
        return;
      }
      var host := ServiceHost(nextHostId, service.value, HostName(service.value));
      nextHostId := nextHostId + 1;
      if host !in serviceHosts {
        serviceHosts := serviceHosts + [host];
      }
    }

    /** `AddService` with the duplicate check the source evidently meant: by hosted service type. */
    method AddServiceOnce(service: Option<TypeDesc>) returns (r: Result<(), HostError>)
      requires Valid()
      modifies this
      ensures Valid()
      ensures r == ValidateServiceDeclaration(service)
      ensures r.Ok? ==> serviceHosts == AddedHostOnce(old(serviceHosts), old(nextHostId), service.value)
      ensures r.Ok? ==> nextHostId == old(nextHostId) + 1
      ensures r.Err? ==> serviceHosts == old(serviceHosts) && nextHostId == old(nextHostId)
      ensures OneHostPerService(old(serviceHosts)) ==> OneHostPerService(serviceHosts)
    {
      r := ValidateServiceDeclaration(service);
      if r.Err? {
        return;
      }
      var t := service.value;
      if OneHostPerService(serviceHosts) {
        AddedOnceKeepsOnePerService(serviceHosts, nextHostId, t);
      }
      var hosted := exists i :: 0 <= i < |serviceHosts| && serviceHosts[i].serviceType == t;
      if !hosted {
        serviceHosts := serviceHosts + [ServiceHost(nextHostId, t, HostName(t))];
      }
      nextHostId := nextHostId + 1;
    }
  }
}
