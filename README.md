# WcfAbstraction, modelled in Dafny

WcfAbstraction is a thin layer over WCF. It has five parts:

- **Client proxy.** `Proxy<TContract>` hands out a transparent channel. Every call runs through `ClientProxy.Invoke`, which retries transient connection failures for as long as a `ConnectionError` subscriber asks for it.
- **Service locator.** `UnityRegistryBase<T>` and its client-side subclass `UnityRegistry` keep a contract-to-instance table (a Unity container). The table is rebuilt from an ordered list of configured mappings. Each mapping resolves to a concrete type, to a Moq mock, or to default handling; in `UnityRegistry` the default is a proxy for the configured server.
- **Server host list.** `ServiceHosts` validates each service class before creating a host for it.
- **Argument validators.** `ArgumentValidator` holds the argument checks.
- **Reflection helpers.** `TypeExtensions` holds small reflection helpers used by the rest.

This project models that behaviour and proves properties of it.

- **Types.** Reflection is replaced by a `TypeDesc` value:
  - name, full name and assembly;
  - kind, base type and interfaces;
  - generic definition and arguments;
  - attributes, constructors, properties and fields.

  Type identity is equality of these values.
- **Objects.** Run-time objects are `Obj(id, runtimeType)`. Objects the code creates draw their identities from a counter.
- **Outside world.** What the code reads from it is passed in as parameters:
  - type-name resolution;
  - configuration values;
  - the channel call;
  - the `ConnectionError` subscribers;
  - proxy creation by reflection;
  - the outcome of closing a client.
- **State.** Code that changes state in place is modelled as classes:
  - `Proxies.Proxy`;
  - `ServiceHosts.ServiceHosts`;
  - `UnityRegistryBase.Registry`;
  - `UnityRegistry.UnityRegistry`.

  Their methods mirror the source's loops. Each method is specified by a pure function that the lemmas reason about.

Files, one module each:

| file | module | models |
|---|---|---|
| wrappers.dfy | Wrappers | `Option`, `Result` |
| types.dfy | Types | the type descriptor and assignability |
| argument_validator.dfy | ArgumentValidator | `ArgumentValidator.cs` |
| type_extensions.dfy | TypeExtensions | `TypeExtensions.cs` |
| service_hosts.dfy | ServiceHosts | `ServiceHosts.cs` |
| proxies.dfy | Proxies | `Proxy.cs` (`Proxy<T>`, `ClientProxy`, `ServiceProxy`, `ConnectionErrorEventArgs`) |
| unity_registry_base.dfy | UnityRegistryBase | `UnityRegistryBase.cs` |
| unity_registry.dfy | UnityRegistry | `UnityRegistry.cs` |

Representation choices that matter when reading the contracts:

- **ulong masks.** A `ulong` in `EnumValueIsDefined` is the set of its one-bit positions (`Mask = set<nat>`). Under this, `(i & u) == i` is `i <= u`. Subtracting a contained flag is set difference, and `u == 0` is `u == {}`. `ToUInt64` maps a signed value to its two's-complement bits, so the conversion's wrap-around is explicit. Two lemmas justify the encoding: the mask is empty exactly when the value is a multiple of 2^64 (`ToUInt64ZeroExactly`), and two values have the same mask exactly when they agree modulo 2^64 (`ToUInt64Injective`).
- **Enum values** are given in the order `Enum.GetValues` returns them, which is ascending by unsigned magnitude. The greedy subtraction depends on this order once a multi-bit value passes `IsValidFlag`.
- **Retry loop.** The source loop in `ClientProxy.Invoke` is unbounded. The model gives it a `fuel` bound, and `Exhausted` stands for "still looping when the fuel ran out".
- **Build flag.** The DEBUG/release build choice is a `debug` flag of each registry.
- **Error exits.** Every exception the core throws is an `Err` value that carries the constructor arguments the source passes. Where the source simply lets an exception escape, the method returns.

## Model

| member | source | states |
|---|---|---|
| ArgumentValidator.NotNull | WcfAbstraction/Validation/ArgumentValidator.cs:135-141 | fails iff the value is null, with `ArgumentNullException(argumentName)` |
| ArgumentValidator.NotNullOrEmptyString | WcfAbstraction/Validation/ArgumentValidator.cs:23-31 | passes iff the string is non-null and non-empty; null gives the null-check error, "" gives `ArgumentException("String cannot be empty", argumentName)` |
| ArgumentValidator.StringLengthHelper | WcfAbstraction/Validation/ArgumentValidator.cs:116-122 | fails iff the value is null and null is not accepted |
| ArgumentValidator.StringLength | WcfAbstraction/Validation/ArgumentValidator.cs:42-60 | null passes iff `acceptNull`; a string passes iff minLength <= `Length` <= maxLength, `Length` counting UTF-16 code units; each failure carries its message and the argument name |
| ArgumentValidator.StringMinLength | WcfAbstraction/Validation/ArgumentValidator.cs:69-84 | null passes iff `acceptNull`; a string passes iff minLength <= `Length` (UTF-16 code units) |
| ArgumentValidator.StringMaxLength | WcfAbstraction/Validation/ArgumentValidator.cs:93-108 | null passes iff `acceptNull`; a string passes iff `Length` (UTF-16 code units) <= maxLength |
| ArgumentValidator.Utf16Length | WcfAbstraction/Validation/ArgumentValidator.cs:51 | `string.Length` lies between the number of scalar values and twice that |
| ArgumentValidator.Utf16LengthOfBmp | WcfAbstraction/Validation/ArgumentValidator.cs:51 | `Length` equals the number of scalar values exactly when none lies outside the Basic Multilingual Plane |
| ArgumentValidator.AstralCharacterCountsTwice | WcfAbstraction/Validation/ArgumentValidator.cs:69-108 | "😀" has `Length` 2: a minimum length of 2 accepts it and a maximum length of 1 rejects it |
| ArgumentValidator.StringLengthIsBothBounds | WcfAbstraction/Validation/ArgumentValidator.cs:42-108 | the two-sided check accepts exactly what both one-sided checks accept, and all three fail alike on null |
| ArgumentValidator.NumberInRange | WcfAbstraction/Validation/ArgumentValidator.cs:273-280 | passes iff min <= value <= max; on failure the exception's paramName is the formatted message and its message is the argument name (as written) |
| ArgumentValidator.NumberMinRange | WcfAbstraction/Validation/ArgumentValidator.cs:289-296 | passes iff min <= value; same swapped exception arguments |
| ArgumentValidator.NumberMaxRange | WcfAbstraction/Validation/ArgumentValidator.cs:304-311 | passes iff value <= max; same swapped exception arguments |
| ArgumentValidator.InRangeIsBothBounds | WcfAbstraction/Validation/ArgumentValidator.cs:273-311 | the range check accepts exactly what both one-sided checks accept |
| ArgumentValidator.NumberInRangeMisnamesParameter | WcfAbstraction/Validation/ArgumentValidator.cs:277-278 | a failing range check reports a parameter name other than the caller's argument name |
| ArgumentValidator.NumberMinRangeMisnamesParameter | WcfAbstraction/Validation/ArgumentValidator.cs:293-294 | the same for the lower-bound check |
| ArgumentValidator.NumberMaxRangeMisnamesParameter | WcfAbstraction/Validation/ArgumentValidator.cs:308-309 | the same for the upper-bound check |
| ArgumentValidator.NumberInRangeIntended | WcfAbstraction/Validation/ArgumentValidator.cs:273-280 | same verdict as the source, and a failure names the caller's argument as paramName |
| ArgumentValidator.NumberMinRangeIntended | WcfAbstraction/Validation/ArgumentValidator.cs:289-296 | same verdict as the source, naming the argument correctly |
| ArgumentValidator.NumberMaxRangeIntended | WcfAbstraction/Validation/ArgumentValidator.cs:304-311 | same verdict as the source, naming the argument correctly |
| ArgumentValidator.DateRange | WcfAbstraction/Validation/ArgumentValidator.cs:337-343 | fails iff start >= end, with its message and the argument name |
| ArgumentValidator.NullableDateRange | WcfAbstraction/Validation/ArgumentValidator.cs:351-354 | a null date fails with `InvalidOperationException` (`.Value` of null); two dates behave as `DateRange` |
| ArgumentValidator.IsTrue | WcfAbstraction/Validation/ArgumentValidator.cs:365-371 | fails iff the condition is false, with `ArgumentException(description)` |
| ArgumentValidator.ToUInt64 | WcfAbstraction/Validation/ArgumentValidator.cs:201-215 | the result is a 64-bit mask: no bit position reaches 64 |
| ArgumentValidator.ToUInt64ZeroExactly | WcfAbstraction/Validation/ArgumentValidator.cs:201-215 | the `ulong` is zero (the empty mask) iff the value is a multiple of 2^64 |
| ArgumentValidator.ToUInt64Injective | WcfAbstraction/Validation/ArgumentValidator.cs:201-215 | two values give the same `ulong` iff they are equal modulo 2^64, so the mask loses nothing |
| ArgumentValidator.BitsDetermine | WcfAbstraction/Validation/ArgumentValidator.cs:201-215 | below 2^n, a number is determined by its lowest n bits |
| ArgumentValidator.ValidFlags | WcfAbstraction/Validation/ArgumentValidator.cs:166-168 | every kept value passes `IsValidFlag`, and every defined value that passes is kept |
| ArgumentValidator.ValidFlagsIsInOrderFilter | WcfAbstraction/Validation/ArgumentValidator.cs:166-168 | the `Where` keeps exactly the values whose `ulong` passes, at strictly increasing positions, in the order they were given |
| ArgumentValidator.EnumValueIsDefined | WcfAbstraction/Validation/ArgumentValidator.cs:162-193 | the loop (with its early exit at zero) decides exactly what the greedy-subtraction specification `EnumCheck` decides |
| ArgumentValidator.GreedyOfZero | WcfAbstraction/Validation/ArgumentValidator.cs:177-180 | a zero residue stays zero, so the early `break` changes nothing |
| ArgumentValidator.GreedyClearsOnly | WcfAbstraction/Validation/ArgumentValidator.cs:172-182 | the greedy walk only clears bits of the value |
| ArgumentValidator.GreedySingleBits | WcfAbstraction/Validation/ArgumentValidator.cs:172-182 | with single-bit flags the residue is the value minus the union of the flags |
| ArgumentValidator.FlagsAcceptedIffCovered | WcfAbstraction/Validation/ArgumentValidator.cs:164-188 | a flags value is accepted iff every bit it sets is a valid flag (single-bit flags) |
| ArgumentValidator.DefinedFlagAccepted | WcfAbstraction/Validation/ArgumentValidator.cs:164-188 | a defined single-bit flag is accepted |
| ArgumentValidator.FlagsRemainderWithinValue | WcfAbstraction/Validation/ArgumentValidator.cs:172-187 | the rejected remainder holds only bits the value set |
| ArgumentValidator.PlainEnumAcceptsDefined | WcfAbstraction/Validation/ArgumentValidator.cs:189-192 | without `[Flags]` a value is accepted iff it is defined |
| TypeExtensions.TryCast | WcfAbstraction/Reflection/TypeExtensions.cs:36-54 | true iff the object is non-null and the target is assignable from its run-time type; the value is the object then, default otherwise |
| TypeExtensions.BoxedValueCastsToNullable | WcfAbstraction/Reflection/TypeExtensions.cs:46 | a boxed value casts to `Nullable` of its own type and not to `Nullable` of another |
| TypeExtensions.CastToSupertypeSucceeds | WcfAbstraction/Reflection/TypeExtensions.cs:41-50 | an object casts to its own type, its interfaces and its base type |
| TypeExtensions.CastOfNullFails | WcfAbstraction/Reflection/TypeExtensions.cs:38-41 | null never casts and yields the default |
| TypeExtensions.TryPerform | WcfAbstraction/Reflection/TypeExtensions.cs:63-74 | returns what `TryCast` returns and runs the action exactly once on success, never otherwise |
| TypeExtensions.FirstConstructedFrom | WcfAbstraction/Reflection/TypeExtensions.cs:124 | a result is one of the interfaces, generic and constructed from the definition; no result means no interface is |
| TypeExtensions.GetGenericInterface | WcfAbstraction/Reflection/TypeExtensions.cs:117-125 | rejects a non-definition argument; otherwise returns the first matching interface or null |
| TypeExtensions.GenericInterfaceIsFirst | WcfAbstraction/Reflection/TypeExtensions.cs:124 | no interface before the one found is constructed from the definition |
| TypeExtensions.FindMember | WcfAbstraction/Reflection/TypeExtensions.cs:155-184 | `GetProperty`/`GetField` by name: null iff no name matches; `AmbiguousMatchException` iff two distinct positions match; otherwise the single member whose name matches |
| TypeExtensions.ResolveMember | WcfAbstraction/Reflection/TypeExtensions.cs:151-191 | a resolved member is a writable property or a field whose name equals the key ignoring case |
| TypeExtensions.ResolutionTiers | WcfAbstraction/Reflection/TypeExtensions.cs:151-191 | exact writable property, else exact field, else case-insensitive writable property, else case-insensitive field; an exact match is stored under the key, a case-insensitive one under the member's own name |
| TypeExtensions.ResolutionOutcome | WcfAbstraction/Reflection/TypeExtensions.cs:151-191 | resolution throws only on an ambiguous lookup; finding nothing means no writable property and no field matches the key up to case, and without ambiguity that is also sufficient |
| TypeExtensions.LooseLookupCoversExact | WcfAbstraction/Reflection/TypeExtensions.cs:155-184 | every exact match is a case-insensitive match, so an ambiguous exact lookup stays ambiguous ignoring case |
| TypeExtensions.CaseVariantsOfOneName | WcfAbstraction/Reflection/TypeExtensions.cs:155-178 | with writable properties `ID` and `Id`, key `"Id"` resolves exactly to `Id`, and key `"id"` throws `AmbiguousMatchException` |
| TypeExtensions.ConvertValue | WcfAbstraction/Reflection/TypeExtensions.cs:197-211 | an assignable value is kept unchanged; a failed conversion reports the key |
| TypeExtensions.MapProperties | WcfAbstraction/Reflection/TypeExtensions.cs:141-218 | null input gives an empty map; otherwise the loop's result is the fold `MapFrom` over the entries in order |
| TypeExtensions.MappedKeysAreMembers | WcfAbstraction/Reflection/TypeExtensions.cs:194-214 | every key of the result is the real name of a writable property or a field of the type |
| TypeExtensions.MappingExtends | WcfAbstraction/Reflection/TypeExtensions.cs:213 | a successful mapping keeps every earlier entry |
| TypeExtensions.MappedEntriesHaveSource | WcfAbstraction/Reflection/TypeExtensions.cs:194-214 | every key a successful mapping adds comes from an entry with a non-null value whose key resolved to a member of that name, and holds that entry's converted value |
| TypeExtensions.ResolvedEntryIsMapped | WcfAbstraction/Reflection/TypeExtensions.cs:194-214 | a non-null entry whose key resolves to a member and whose value converts is stored under the member's name with the converted value |
| TypeExtensions.LooseEntryIsMappedUnderMemberName | WcfAbstraction/Reflection/TypeExtensions.cs:174-178 | a key that matches a writable property only ignoring case is stored under the property's own name |
| TypeExtensions.SkippedEntryChangesNothing | WcfAbstraction/Reflection/TypeExtensions.cs:194-196 | an entry with a null value, or whose key resolves to no member, can be removed without changing the result |
| TypeExtensions.ExactAssignableEntryIsMapped | WcfAbstraction/Reflection/TypeExtensions.cs:155-159 | an entry naming an exact writable property with an assignable non-null value is stored under that name and value (unless a later duplicate fails) |
| TypeExtensions.EmptyPropsMapToEmpty | WcfAbstraction/Reflection/TypeExtensions.cs:143-149 | an empty dictionary maps to an empty one |
| TypeExtensions.DuplicateMemberFails | WcfAbstraction/Reflection/TypeExtensions.cs:213 | two keys resolving to the same member make `Dictionary.Add` fail |
| TypeExtensions.AmbiguousKeyFails | WcfAbstraction/Reflection/TypeExtensions.cs:151-191 | a key whose lookup is ambiguous, at any position and whatever its value, makes `MapProperties` throw; as the first entry, with `AmbiguousMatchException` |
| TypeExtensions.GetAssemblyQualifiedName | WcfAbstraction/Reflection/TypeExtensions.cs:251-259 | null iff the type is null; otherwise full name, ", " and assembly name |
| TypeExtensions.QualifiedNameRoundTrip | WcfAbstraction/Reflection/TypeExtensions.cs:258 | the qualified name splits back at its last comma into the full name and the assembly name |
| TypeExtensions.FirstOfKind | WcfAbstraction/Reflection/TypeExtensions.cs:292-301 | absent iff no attribute of the kind; otherwise the lowest index holding one (`attributes[0]` of `GetCustomAttributes`) |
| TypeExtensions.GetDisplayName | WcfAbstraction/Reflection/TypeExtensions.cs:283-305 | "(null)" for null; else the first `DisplayName` attribute's text; else, with no `DisplayName`, the first `Description` attribute's text; else the type name |
| TypeExtensions.NullTypeDisplayName | WcfAbstraction/Reflection/TypeExtensions.cs:285-288 | a null type displays as "(null)" |
| TypeExtensions.IsSubclassOfRawGeneric | WcfAbstraction/Reflection/TypeExtensions.cs:320-334 | the while loop computes the search specification `RawGenericSearch`, including the null dereference on a chain with no `object` |
| TypeExtensions.BaseChain | WcfAbstraction/Reflection/TypeExtensions.cs:330 | the chain starts at the type itself |
| TypeExtensions.ObjectIndex | WcfAbstraction/Reflection/TypeExtensions.cs:322 | the first position of `object` on the chain, nothing before it is `object` |
| TypeExtensions.RawGenericSearchOnChain | WcfAbstraction/Reflection/TypeExtensions.cs:320-334 | true iff some type on the chain before `object`, or its generic definition, is `generic`; a chain without `object` and no match fails |
| TypeExtensions.ConstructedTypeMatchesItsDefinition | WcfAbstraction/Reflection/TypeExtensions.cs:324-328 | a constructed generic class matches its own definition |
| TypeExtensions.DerivedFromConstructed | WcfAbstraction/Reflection/TypeExtensions.cs:322-331 | a class derived from a constructed generic class matches the definition |
| ServiceHosts.ContractLoopNeverFails | WcfAbstraction.Server/ServiceHosts.cs:219-242 | the contract-attribute loop inspects only interfaces that carry `[ServiceContract]`, so it never rejects |
| ServiceHosts.ValidateContractAttributes | WcfAbstraction.Server/ServiceHosts.cs:205-243 | fails iff the service implements no interface, with the source's exception and message |
| ServiceHosts.ValidateServiceAttributes | WcfAbstraction.Server/ServiceHosts.cs:184-203 | fails iff `[ServiceBehavior]` is missing, with the source's exception and message |
| ServiceHosts.InstanceConstructors | WcfAbstraction.Server/ServiceHosts.cs:176 | exactly the non-static constructors, public or not |
| ServiceHosts.InstanceConstructorsCounted | WcfAbstraction.Server/ServiceHosts.cs:176 | each instance constructor is kept as often as it is declared, so the length is the count `Count()` takes |
| ServiceHosts.ValidateServiceDeclaration | WcfAbstraction.Server/ServiceHosts.cs:151-157 | a null service type fails with `ArgumentNullException` |
| ServiceHosts.AcceptedServiceShape | WcfAbstraction.Server/ServiceHosts.cs:151-182 | accepted iff some interface, `[ServiceBehavior]`, a non-public parameterless instance constructor, and exactly one instance constructor |
| ServiceHosts.NoInterfaceReportedFirst | WcfAbstraction.Server/ServiceHosts.cs:159-217 | with no interface that error is reported, whatever else is wrong |
| ServiceHosts.MissingBehaviorReportedSecond | WcfAbstraction.Server/ServiceHosts.cs:159-202 | with interfaces, a missing `[ServiceBehavior]` is reported before any constructor problem |
| ServiceHosts.ExtraConstructorRejected | WcfAbstraction.Server/ServiceHosts.cs:175-181 | a second instance constructor beside the private one is rejected with the multiple-constructor message |
| ServiceHosts.AddedTwiceHostsTwice | WcfAbstraction.Server/ServiceHosts.cs:108-119 | as written, adding a service type twice lists two hosts for it |
| ServiceHosts.AddedOnceKeepsOnePerService | WcfAbstraction.Server/ServiceHosts.cs:116-119 | the intended insertion keeps one host per service type and lists the added type |
| ServiceHosts.ServiceHosts.constructor | WcfAbstraction.Server/ServiceHosts.cs:18-25 | an empty host list |
| ServiceHosts.ServiceHosts.ServiceNames | WcfAbstraction.Server/ServiceHosts.cs:31-37 | one name per host, in list order, each the host's description name |
| ServiceHosts.ServiceHosts.AddService | WcfAbstraction.Server/ServiceHosts.cs:102-120 | validation result as `ValidateServiceDeclaration`; on success the fresh host is appended (the duplicate check never fires) and the host counter grows by one; on failure the list and the counter are unchanged |
| ServiceHosts.ServiceHosts.AddServiceOnce | WcfAbstraction.Server/ServiceHosts.cs:116-119 | the same with the duplicate check by service type; keeps one host per service; the counter as in `AddService` |
| Proxies.OutCount | WcfAbstraction.Server.Contracts/Services/Proxies/Proxy.cs:232-240 | at most one per parameter; zero iff no parameter is out or by-ref; all iff every one is |
| Proxies.OutCountAppend | WcfAbstraction.Server.Contracts/Services/Proxies/Proxy.cs:238-240 | one more parameter adds one iff it is out or by-ref |
| Proxies.OutArgumentsOf | WcfAbstraction.Server.Contracts/Services/Proxies/Proxy.cs:229-252 | defined iff there are no more arguments than parameters (else index out of range); same length as the arguments, slot i is args[i] for an out or by-ref parameter and null otherwise, count = number of such parameters |
| Proxies.GetOutArguments | WcfAbstraction.Server.Contracts/Services/Proxies/Proxy.cs:229-252 | the list-appending loop computes `OutArgumentsOf` |
| Proxies.ConnectionErrorEventArgs.constructor | WcfAbstraction.Server.Contracts/Services/Proxies/Proxy.cs:679-681 | no error, `Retry` false |
| Proxies.ConnectionErrorEventArgs.WithError | WcfAbstraction.Server.Contracts/Services/Proxies/Proxy.cs:687-690 | the given error, `Retry` false |
| Proxies.OnConnectionError | WcfAbstraction.Server.Contracts/Services/Proxies/Proxy.cs:630-636 | the subscribers, if any, set `Retry`; without subscribers nothing changes |
| Proxies.Invoke | WcfAbstraction.Server.Contracts/Services/Proxies/Proxy.cs:170-226 | a non-call message is rejected; otherwise the outcome, the notices raised and the number of channel calls are those of the loop specification `Run` |
| Proxies.TerminalFailureEndsAtOnce | WcfAbstraction.Server.Contracts/Services/Proxies/Proxy.cs:199-216 | a non-transient inner failure is returned after one attempt with no notification |
| Proxies.DeclinedRetryReturnsInner | WcfAbstraction.Server.Contracts/Services/Proxies/Proxy.cs:202-211 | a transient failure the subscribers do not retry raises one notice with `Retry` false and returns the inner error |
| Proxies.NoSubscriberNoRetry | WcfAbstraction.Server.Contracts/Services/Proxies/Proxy.cs:630-636 | with no subscriber `Retry` stays false |
| Proxies.OtherExceptionReturnedAsIs | WcfAbstraction.Server.Contracts/Services/Proxies/Proxy.cs:218-221 | an exception other than `TargetInvocationException` is returned unchanged after one attempt, with no notification |
| Proxies.SuccessReturnsOutArguments | WcfAbstraction.Server.Contracts/Services/Proxies/Proxy.cs:185-197 | a successful call returns its result with the out-argument vector and count |
| Proxies.RunShape | WcfAbstraction.Server.Contracts/Services/Proxies/Proxy.cs:181-222 | notices are for consecutive attempts and all transient; all but the last were retried; a new attempt follows only a retried notice; the loop is still running only if every pass was retried; a declined notice ends the loop with its error |
| Proxies.CreateEndpointAddress | WcfAbstraction.Server.Contracts/Services/Proxies/Proxy.cs:370-380 | the fixed SPN identity, and a URI of the expected length |
| Proxies.EndpointAddressRoundTrip | WcfAbstraction.Server.Contracts/Services/Proxies/Proxy.cs:373 | the URI parses back to the server and the contract name without its first character |
| Proxies.ServerAddressOf | WcfAbstraction.Server.Contracts/Services/Proxies/Proxy.cs:386-391 | "ServerName:PortNumber", never empty |
| Proxies.ServerAddressRoundTrip | WcfAbstraction.Server.Contracts/Services/Proxies/UnityRegistry.cs:155-157 | the address splits back at its first ':' into server name and port |
| Proxies.ChooseConstructor | WcfAbstraction.Server.Contracts/Services/Proxies/Proxy.cs:399-428 | endpoint configuration iff a name is set; binding iff no name and a binding; the default otherwise |
| Proxies.Proxy.constructor | WcfAbstraction.Server.Contracts/Services/Proxies/Proxy.cs:330-351 | service-model mode; duplex iff a callback; with neither address nor configuration name, the configured server address supplies the address and the default binding fills a missing binding |
| Proxies.Proxy.FromServerName | WcfAbstraction.Server.Contracts/Services/Proxies/Proxy.cs:326-328 | the default binding and the address for the named server |
| Proxies.Proxy.FromChannel | WcfAbstraction.Server.Contracts/Services/Proxies/Proxy.cs:353-358 | not service-model mode, holding the given channel |
| Proxies.Proxy.NewClient | WcfAbstraction.Server.Contracts/Services/Proxies/Proxy.cs:397-431 | duplex iff the proxy is, created state, delegation impersonation, constructor by precedence; the proxy's remote address is passed to the configuration-name and binding constructors only, the default constructor taking none |
| Proxies.Proxy.CreateClient | WcfAbstraction.Server.Contracts/Services/Proxies/Proxy.cs:397-431 | the held client becomes a fresh `NewClient`; the mode, channel and log are unchanged |
| Proxies.Proxy.Channel | WcfAbstraction.Server.Contracts/Services/Proxies/Proxy.cs:271-308 | outside service-model mode, the stored channel; a live client is reused; a missing, faulted, closing or closed client is disposed and replaced by a fresh one |
| Proxies.Proxy.Dispose | WcfAbstraction.Server.Contracts/Services/Proxies/Proxy.cs:565-578 | nothing for a missing or faulted client; otherwise close, abort when the close throws `TimeoutException`, and any other close exception propagates |
| UnityRegistryBase.CreateInstance | WcfAbstraction/Unity/UnityRegistryBase.cs:86 | null type fails with `ArgumentNullException("type")`; succeeds iff the type can be instantiated; null exactly for `Nullable<T>`; otherwise a fresh object of that type |
| UnityRegistryBase.GetPropertyOfType | WcfAbstraction/Unity/UnityRegistryBase.cs:217 | a found property has that name and type; none found means no property has both |
| UnityRegistryBase.ResolveEntry | WcfAbstraction/Unity/UnityRegistryBase.cs:167-236 | an unresolvable contract fails with the null-contract error; success resolves the contract; the default branch is taken iff both the concrete and mock names are empty |
| UnityRegistryBase.ConcreteEntryRules | WcfAbstraction/Unity/UnityRegistryBase.cs:174-196 | a concrete entry is accepted iff the type resolves, implements the contract and can be instantiated (non-null in the base); each failure has its message; it binds the new instance |
| UnityRegistryBase.MockEntryRules | WcfAbstraction/Unity/UnityRegistryBase.cs:197-231 | a mock entry is accepted iff the type resolves, derives from `MoqObject<>`, instantiates, and has a non-null `MockObject` property of the contract type; it binds that value |
| UnityRegistryBase.Register | WcfAbstraction/Unity/UnityRegistryBase.cs:96-105 | binds the contract to the instance, creating the container if there is none; every other binding is unchanged |
| UnityRegistryBase.AcceptedAtAnyId | WcfAbstraction/Unity/UnityRegistryBase.cs:167-236 | whether a mapping registers does not depend on the identity handed out |
| UnityRegistryBase.ErrorPersists | WcfAbstraction/Unity/UnityRegistryBase.cs:155-245 | in a release build nothing after the first failure is registered |
| UnityRegistryBase.DebugNeverFails | WcfAbstraction/Unity/UnityRegistryBase.cs:162-243 | a DEBUG build never fails |
| UnityRegistryBase.AcceptedMappings | WcfAbstraction/Unity/UnityRegistryBase.cs:155-245 | the accepted mappings, in order |
| UnityRegistryBase.DebugSkipsFailures | WcfAbstraction/Unity/UnityRegistryBase.cs:162-243 | a DEBUG build registers exactly what a release build registers from the accepted mappings alone |
| UnityRegistryBase.ReleaseStopsAtFirstFailure | WcfAbstraction/Unity/UnityRegistryBase.cs:155-245 | a release build keeps what the mappings before the first failing one registered and reports that mapping's error |
| UnityRegistryBase.AllAcceptedSucceed | WcfAbstraction/Unity/UnityRegistryBase.cs:155-245 | with every mapping accepted a release build succeeds and uses one identity per mapping |
| UnityRegistryBase.DebugStep | WcfAbstraction/Unity/UnityRegistryBase.cs:162-243 | one DEBUG pass binds an accepted mapping's contract and otherwise changes nothing |
| UnityRegistryBase.BoundContracts | WcfAbstraction/Unity/UnityRegistryBase.cs:151-245 | after a DEBUG rebuild a contract is bound iff some accepted mapping names it |
| UnityRegistryBase.LastRegistrationWins | WcfAbstraction/Unity/UnityRegistryBase.cs:151-245 | a bound contract holds the instance of the last accepted mapping naming it |
| UnityRegistryBase.WinnerSurvivesLaterMapping | WcfAbstraction/Unity/UnityRegistryBase.cs:151-245 | a later mapping for another contract leaves the winner in place |
| UnityRegistryBase.IdentitiesCount | WcfAbstraction/Unity/UnityRegistryBase.cs:155-245 | each accepted mapping creates exactly one object |
| UnityRegistryBase.GetService | WcfAbstraction/Unity/UnityRegistryBase.cs:123-126 | no container fails on null; an unbound contract cannot be resolved; success returns the bound instance iff its type fits the contract |
| UnityRegistryBase.RegisteredServiceIsReturned | WcfAbstraction/Unity/UnityRegistryBase.cs:96-126 | an instance just registered is what `GetService` returns |
| UnityRegistryBase.Registry.constructor | WcfAbstraction/Unity/UnityRegistryBase.cs:34-36 | no container yet |
| UnityRegistryBase.Registry.RegisterServiceInstance | WcfAbstraction/Unity/UnityRegistryBase.cs:96-105 | the container becomes `Register` of the old one (created if absent); re-registering replaces the earlier binding |
| UnityRegistryBase.Registry.RegisterService | WcfAbstraction/Unity/UnityRegistryBase.cs:79-88 | a null contract fails with `ArgumentNullException` and changes nothing; a failed instantiation propagates; otherwise the new instance is bound |
| UnityRegistryBase.Registry.CreateDefaultInstance | WcfAbstraction/Unity/UnityRegistryBase.cs:112-115 | always fails with `NotImplementedException` and its message |
| UnityRegistryBase.Registry.ConfigureUnityContainer | WcfAbstraction/Unity/UnityRegistryBase.cs:149-245 | the container and counter become those of `Rebuild` from an empty container; fails iff the rebuild stopped on an error, with that error |
| UnityRegistryBase.Registry.Reload | WcfAbstraction/Unity/UnityRegistryBase.cs:132-135 | the same as `ConfigureUnityContainer` |
| UnityRegistry.ProxyOf | WcfAbstraction.Server.Contracts/Services/Proxies/UnityRegistry.cs:95-97 | a closed type constructed from `Proxy<>` |
| UnityRegistry.OpenProxyCheckNeverFires | WcfAbstraction.Server.Contracts/Services/Proxies/UnityRegistry.cs:78 | the as-written check never rejects an object, since no object's run-time type is an open generic definition |
| UnityRegistry.ProxyInstancePassesCheck | WcfAbstraction.Server.Contracts/Services/Proxies/UnityRegistry.cs:74-82 | a `Proxy<T>` instance is neither subscribed nor rejected |
| UnityRegistry.ProxyTypeRejectedAsIntended | WcfAbstraction.Server.Contracts/Services/Proxies/UnityRegistry.cs:78-81 | the intended check rejects every `Proxy<T>` and accepts types not built from `Proxy<>` |
| UnityRegistry.DefaultInstanceOf | WcfAbstraction.Server.Contracts/Services/Proxies/UnityRegistry.cs:113-131 | succeeds iff both the proxy and its channel are non-null, returning the channel; each null has its message |
| UnityRegistry.MappingStepBindsOnlyItsContract | WcfAbstraction.Server.Contracts/Services/Proxies/UnityRegistry.cs:182-263 | a mapping changes only its own contract's binding, keeps every subscription, adds at most one, and in a release build without error binds its contract |
| UnityRegistry.MappingErrorPersists | WcfAbstraction.Server.Contracts/Services/Proxies/UnityRegistry.cs:170-180 | in a release build nothing after the first failure is registered |
| UnityRegistry.SubscriptionsAccumulate | WcfAbstraction.Server.Contracts/Services/Proxies/UnityRegistry.cs:170-180 | a rebuild keeps every earlier subscription and adds at most one per mapping |
| UnityRegistry.FirstMatchFrom | WcfAbstraction.Server.Contracts/Services/Proxies/UnityRegistry.cs:295-305 | the first mapping at or after the start whose contract resolves to the type; none before it matches |
| UnityRegistry.RepairLeavesOtherContracts | WcfAbstraction.Server.Contracts/Services/Proxies/UnityRegistry.cs:295-306 | fault repair leaves every other contract's binding as it was |
| UnityRegistry.RepairWithoutMatchChangesNothing | WcfAbstraction.Server.Contracts/Services/Proxies/UnityRegistry.cs:295-306 | with no matching mapping nothing is registered again |
| UnityRegistry.RepairRebindsFaultedContract | WcfAbstraction.Server.Contracts/Services/Proxies/UnityRegistry.cs:299-304 | a successful release repair binds the faulted contract and changes no other binding |
| UnityRegistry.UnityRegistry.constructor | WcfAbstraction.Server.Contracts/Services/Proxies/UnityRegistry.cs:31-45 | an empty container, no server address, no subscriptions |
| UnityRegistry.UnityRegistry.RegisterServiceInstance | WcfAbstraction.Server.Contracts/Services/Proxies/UnityRegistry.cs:71-84 | null fails on `GetType()`; a communication object is subscribed and bound; an open `Proxy<>` is rejected; anything else is bound |
| UnityRegistry.UnityRegistry.RegisterService | WcfAbstraction.Server.Contracts/Services/Proxies/UnityRegistry.cs:58-63 | a failed instantiation propagates and changes nothing; a null instance fails with nothing bound; a new instance takes one identity and is then handled as by `RegisterServiceInstance`: a communication object is subscribed and bound, an open `Proxy<>` is rejected, anything else is bound |
| UnityRegistry.UnityRegistry.CreateDefaultInstance | WcfAbstraction.Server.Contracts/Services/Proxies/UnityRegistry.cs:92-132 | the result is `DefaultInstanceOf` the proxy made for the server address; its client is subscribed exactly on success |
| UnityRegistry.UnityRegistry.SetServerAddress | WcfAbstraction.Server.Contracts/Services/Proxies/UnityRegistry.cs:152-158 | the server address becomes "ServerName:PortNumber"; nothing else changes |
| UnityRegistry.UnityRegistry.RegisterMapping | WcfAbstraction.Server.Contracts/Services/Proxies/UnityRegistry.cs:182-263 | the new state is `MappingStep` of the old; an error is reported only in a release build |
| UnityRegistry.UnityRegistry.ConfigureUnityContainer | WcfAbstraction.Server.Contracts/Services/Proxies/UnityRegistry.cs:170-180 | the new state is `RebuildMappings` from an empty container; fails iff the rebuild stopped on an error, with that error |
| UnityRegistry.UnityRegistry.Reload | WcfAbstraction.Server.Contracts/Services/Proxies/UnityRegistry.cs:138-146 | the server address is set first and the rebuild uses the new address |
| UnityRegistry.UnityRegistry.ProxyFaulted | WcfAbstraction.Server.Contracts/Services/Proxies/UnityRegistry.cs:283-311 | the sender is aborted and one subscription of it removed; then the state is `Repaired`, the first matching mapping registered again |

## Left out

- `RealProxy`, transparent proxies and `MethodBase.Invoke`. The channel call is the `invoke` parameter, giving a result or an exception per attempt.
- `ServiceProxy.OnCallStarted`, `OnCallEnded` and `ClientCredential`, the unused `GetAllArguments`, and the public `Create` factory methods of `Proxy<T>`.
- The WCF `Client` and `DuplexClient` classes: bindings, credentials, `SpnEndpointIdentity` and `ClientBase`. A client is a record of which constructor was chosen, its callback, its address, its state and its impersonation level.
- `Proxies.Proxy.Channel`: the transparent proxy a client hands out is represented by the client's identity.
- `Proxies.Invoke`:
  - the retry loop is bounded by `fuel`; a loop that would go on retrying forever ends as `Exhausted`;
  - the logical call context of the `ReturnMessage` is not modelled.
- `Proxies.CreateEndpointAddress`: the URI checks that `new Uri` makes at Proxy.cs:379 are not modelled. The function accepts any server text. The source throws `UriFormatException` for a malformed address, for example the ":" that an unset `ServerName` and `PortNumber` produce (an empty host). The proxy constructors that call it are therefore not modelled as failing.
- `UnityRegistryBase.Registry.ConfigureUnityContainer`: models a registry type `T` that does not override `CreateDefaultInstance`, so a mapping with neither a concrete nor a mock type fails with the base `NotImplementedException`. The repository's only `T`, `UnityRegistry`, overrides it and has its own `ConfigureUnityContainer`; that one is modelled as `UnityRegistry.UnityRegistry.ConfigureUnityContainer` with the overriding default.
- `Proxies.Proxy.constructor`: the configured `ServerName` and `PortNumber` are parameters. The server address is never empty, so its emptiness test always lets the address be derived.
- The `lock` in `Proxy_Faulted` and all thread-safety concerns: fault repair is one atomic sequential step.
- `Debug.WriteLine` and the other diagnostics output.
- `AppConfigHandler` and `UnityMappingSection`: the mapping list, `ServerName` and `PortNumber` are inputs.
- `Type.GetType` is the `types` map.
- `UnityRegistry.UnityRegistry.CreateDefaultInstance`:
  - `Proxy<T>.Create(ServerAddress)`, the `Channel` getter and the private `client` field, all reached by reflection, are the `Environment.createProxy` parameter;
  - the null check after `MakeGenericType` is dead code: that call never returns null;
  - `MakeGenericType` failures are not modelled.
- `UnityRegistryBase.CreateInstance`: every failure of `Activator.CreateInstance` is one `MissingMethodException`. Exceptions thrown by a constructor's body are not modelled.
- `UnityRegistryBase.GetService`:
  - Unity's own behaviour for an unregistered contract is reduced to a resolution failure. The real container may build a concrete class on the fly.
- `UnityRegistryBase.Registry.RegisterServiceInstance`: Unity's own checks in `RegisterInstance` are not modelled. Unity rejects a null instance with `ArgumentNullException` and an instance not assignable to the contract type with `ArgumentException`. The model binds the instance as given; this affects `UnityRegistryBase.GetService` only through what is bound.
- `UnityRegistry.UnityRegistry.RegisterMapping`: the same `RegisterInstance` checks are not modelled for the concrete, mock and default instances it binds. A null concrete instance (a `CreateInstance` of `Nullable<>`) is bound as null.
- `UnityRegistryBase.GetService`: Unity's argument checks in `Resolve` are not visible.
- The static constructor of `UnityRegistryBase<T>`:
  - its call to `Reload` is left to callers of `Registry`;
  - `UnityRegistry`'s container starts empty, because that constructor creates it before any use.
- `UnityRegistry.UnityRegistry.ProxyFaulted`:
  - the sender's run-time type is compared with the resolved contract types as the source does;
  - what type WCF actually passes as the sender is not visible here.
- `UnityRegistry.UnityRegistry.Reload`: subscriptions of proxies made by earlier reloads are kept, as in the source, which never detaches them.
- `ArgumentValidator.IntToString`: numbers in messages are written in invariant form (ASCII digits, `-` sign). The source formats with `string.Format` in the current culture (ArgumentValidator.cs:277, 293 and 308), so a culture with another negative sign or other digits is not modelled.
- `ArgumentValidator.EnumValueIsDefined`:
  - `IsValidFlag` (`Math.Log` in floating point) is the abstract predicate `isValidFlag`;
  - values are integers, so a non-integral argument, which makes `ToUInt64` throw `InvalidOperationException`, is not representable.
- `TypeIsAssignableFromType`, `NumericFormat`, `DateFormat` and `ValidFormat` are left out: they wrap library parsing, regular expressions and `Type.IsAssignableFrom` formatting.
- `Types.IsAssignableFrom`: models identity, implemented interfaces, the base chain and `Nullable<T>` from `T`. Generic variance (`IEnumerable<Derived>` as `IEnumerable<Base>`), array covariance and the numeric and other special cases of `Type.IsAssignableFrom` are not modelled.
- `TypeExtensions.TryCast`: inherits the assignability of `Types.IsAssignableFrom`, so a cast that needs generic variance or array covariance is false in the model.
- `TypeExtensions.ConvertValue`: `Enum.Parse` and `Convert.ChangeType` are parameters, and only their success or failure is modelled.
- `TypeExtensions.EqualsIgnoreCase` folds ASCII letters only.
- `TypeExtensions.FindMember`: a type's `properties` and `fields` are the members reflection lists. How .NET treats a member that a derived class hides by name (`new`) is not modelled: two listed members with the same name count as ambiguous.
- `UnityRegistryBase.GetPropertyOfType`: `GetProperty(name, returnType)` is the first property with that name and type. The `AmbiguousMatchException` it throws when several qualify is not modelled.
- `CreateInstanceOfGenericType`, `NameOf` (expression trees) and `SetProperties` (`InvokeMember`): reflection invocation beyond the type descriptor.
- `ServiceHosts.Start`, `Stop`, `InitServices`, `AddBehavior`, `LoadCache` and `UnloadCache`: hosting lifecycle and WCF behaviours. A created host is represented by an identity, its service type and its description name.
- `ServiceHosts.ServiceHosts.AddService`: the `ServiceHost<T>` that `Activator` creates is assumed to be created successfully.
- `TypeExtensions.RawGenericSearchOnChain`: in the source, walking past the end of a chain that never reaches `object` (an interface's chain) dereferences null. The model reports this as `NullReferenceException` instead of raising it.

## Findings

| source | as written | input that shows it | evidently intended | confidence | as-written member | corrected member |
|---|---|---|---|---|---|---|
| WcfAbstraction/Validation/ArgumentValidator.cs:278 | `new ArgumentOutOfRangeException(formatedStirng, argumentName)` passes the message as `paramName` and the argument name as the message | `NumberInRange(5, 0, 3, "count")`: the exception's ParamName is "Int value not in range (min: 0, max: 3" | `ArgumentOutOfRangeException(argumentName, message)` | high, not executed | ArgumentValidator.NumberInRangeMisnamesParameter | ArgumentValidator.NumberInRangeIntended |
| WcfAbstraction/Validation/ArgumentValidator.cs:294 | the same argument swap in `NumberMinRange` | `NumberMinRange(-1, 0, "count")` | the argument name as `paramName` | high, not executed | ArgumentValidator.NumberMinRangeMisnamesParameter | ArgumentValidator.NumberMinRangeIntended |
| WcfAbstraction/Validation/ArgumentValidator.cs:309 | the same argument swap in `NumberMaxRange` | `NumberMaxRange(9, 3, "count")` | the argument name as `paramName` | high, not executed | ArgumentValidator.NumberMaxRangeMisnamesParameter | ArgumentValidator.NumberMaxRangeIntended |
| WcfAbstraction.Server/ServiceHosts.cs:116-119 | `serviceHosts.Contains(serviceHost)` tests a host created one line earlier, so it is never already listed | the same service type configured twice: two hosts for it | skip a service type that already has a host | medium, not executed | ServiceHosts.AddedTwiceHostsTwice | ServiceHosts.AddedOnceKeepsOnePerService |
| WcfAbstraction.Server.Contracts/Services/Proxies/UnityRegistry.cs:78 | `instance.GetType() == typeof(Proxy<>)` compares a run-time type with an open generic definition, which is never true | `RegisterServiceInstance(typeof(IFoo), Proxy<IFoo>.Create(...))` is registered instead of rejected | reject any instance whose type is constructed from `Proxy<>` | high, not executed | UnityRegistry.ProxyInstancePassesCheck | UnityRegistry.ProxyTypeRejectedAsIntended |
