/**
 * The client side of a service call: the proxy that owns a WCF client and
 * recreates it when it has failed, and the interception layer that runs
 * each call, reports connection errors to subscribers and retries while a
 * subscriber asks for it.
 *
 * The channel call itself is an oracle `invoke(k)` giving the outcome of
 * the k-th attempt, and the `ConnectionError` subscribers are a handler
 * giving the `Retry` value they leave on the k-th notification.
 */
module Proxies {
  import opened Wrappers
  import opened Types
  import ArgumentValidator

  /** An object reference that may be null. */
  type Value = Option<Obj>

  /** The exceptions the interception layer tells apart. */
  datatype Exception =
    | SecurityNegotiationException(message: string)
    /** `FaultException<UnauthorizedAccessException>`. */
    | UnauthorizedAccessFault(message: string)
    | EndpointNotFoundException(message: string)
    | TimeoutException(message: string)
    | IndexOutOfRangeException
    | TargetInvocationException(inner: Exception)
    /** Any other exception, by type name. */
    | OtherException(typeName: string, message: string)

  /** A connection error worth reporting and possibly retrying. */
  predicate IsTransient(e: Exception) {
    e.SecurityNegotiationException? || e.UnauthorizedAccessFault? || e.EndpointNotFoundException?
  }

  // ----- out arguments -----

  datatype ParameterInfo = ParameterInfo(name: string, isOut: bool, isByRef: bool)

  predicate IsOutParameter(p: ParameterInfo) {
    p.isOut || p.isByRef
  }

  /** The number of out or by-reference parameters. */
  function OutCount(parameters: seq<ParameterInfo>): (n: nat)
    ensures n <= |parameters|
    ensures n == 0 <==> forall i :: 0 <= i < |parameters| ==> !IsOutParameter(parameters[i])
    ensures n == |parameters| <==> forall i :: 0 <= i < |parameters| ==> IsOutParameter(parameters[i])
    decreases |parameters|
  {
    if |parameters| == 0 then 0
    else
      var rest := OutCount(parameters[1..]);
      assert forall i :: 1 <= i < |parameters| ==> parameters[i] == parameters[1..][i - 1];
      (if IsOutParameter(parameters[0]) then 1 else 0) + rest
  }

  lemma OutCountAppend(parameters: seq<ParameterInfo>, p: ParameterInfo)
    ensures OutCount(parameters + [p]) == OutCount(parameters) + if IsOutParameter(p) then 1 else 0
    decreases |parameters|
  {
    if |parameters| > 0 {
      assert (parameters + [p])[1..] == parameters[1..] + [p];
      OutCountAppend(parameters[1..], p);
    }
  }

  /** The out-argument vector of a `ReturnMessage` and its count. */
  datatype OutArguments = OutArguments(args: seq<Value>, count: nat)

  /**
   * What `GetOutArguments` yields: slot i holds `args[i]` when parameter i
   * is out or by-reference and null otherwise, and the count is the number
   * of such parameters.  More arguments than parameters makes the
   * parameter lookup go out of range.
   */
  function OutArgumentsOf(parameters: seq<ParameterInfo>, args: seq<Value>): (r: Result<OutArguments, Exception>)
    ensures r.Ok? <==> |args| <= |parameters|
    ensures r.Err? ==> r.error == IndexOutOfRangeException
    ensures r.Ok? ==> (|r.value.args| == |args|
      && (forall i :: 0 <= i < |args| ==> r.value.args[i] == if IsOutParameter(parameters[i]) then args[i] else None)
      && r.value.count == OutCount(parameters[..|args|])
      && r.value.count <= |args|)
  {
    if |args| > |parameters| then Err(IndexOutOfRangeException)
    else
      Ok(OutArguments(seq(|args|, i requires 0 <= i < |args| => if IsOutParameter(parameters[i]) then args[i] else None),
                      OutCount(parameters[..|args|])))
  }

  /** `GetOutArguments`: one pass over the arguments, appending to a list while counting. */
  method GetOutArguments(parameters: seq<ParameterInfo>, args: seq<Value>) returns (r: Result<OutArguments, Exception>)
    ensures r == OutArgumentsOf(parameters, args)
  {
    var countTemp := 0;
    var outParameters: seq<Value> := [];
    var i := 0;
    while i < |args|
      invariant 0 <= i <= |args| && i <= |parameters|
      invariant |outParameters| == i
      invariant forall j :: 0 <= j < i ==> outParameters[j] == if IsOutParameter(parameters[j]) then args[j] else None
      invariant countTemp == OutCount(parameters[..i])
    {
      if i >= |parameters| {
        return Err(IndexOutOfRangeException);
      }
      var parameterInfo := parameters[i];
      assert parameters[..i + 1] == parameters[..i] + [parameterInfo];
      OutCountAppend(parameters[..i], parameterInfo);
      if parameterInfo.isOut || parameterInfo.isByRef {
        countTemp := countTemp + 1;
        outParameters := outParameters + [args[i]];
      } else {
        outParameters := outParameters + [None];
      }
      i := i + 1;
    }
    assert outParameters == seq(|args|, j requires 0 <= j < |args| => if IsOutParameter(parameters[j]) then args[j] else None);
    return Ok(OutArguments(outParameters, countTemp));
  }

  // ----- the interception loop -----

  /** The intercepted call: the method's parameters. */
  datatype MethodCall = MethodCall(parameters: seq<ParameterInfo>)

  /** One `MethodBase.Invoke` on the channel: a result with the arguments as the call left them, or an exception. */
  datatype Attempt = Returned(result: Value, args: seq<Value>) | Threw(error: Exception)

  datatype ReturnMessage =
    | ReturnValue(result: Value, outArgs: seq<Value>, outArgsCount: nat)
    | ReturnException(error: Exception)

  /** A `ConnectionError` notification: the attempt, the error, and the `Retry` value the subscribers left. */
  datatype Notice = Notice(attempt: nat, error: Exception, retry: bool)

  /** `Exhausted` stands for the loop still running when the fuel ran out. */
  datatype InvokeOutcome = Completed(message: ReturnMessage) | Exhausted

  /** The `ConnectionError` subscribers: given the attempt, the event's error and its current `Retry`, the `Retry` they leave. */
  type Handler = (nat, Option<Exception>, bool) -> bool

  /** `Retry` after raising the event for a fresh `ConnectionErrorEventArgs(inner)`. */
  function RetryAfterNotice(subscribers: Option<Handler>, attempt: nat, inner: Exception): bool {
    if subscribers.Some? then subscribers.value(attempt, Some(inner), false) else false
  }

  /** The outcome of one pass of the loop: a return message (with any notice raised), or another round. */
  datatype Step = Done(message: ReturnMessage, notices: seq<Notice>) | Again(notice: Notice)

  /** The message built from a successful call. */
  function ReturnFor(call: MethodCall, result: Value, args: seq<Value>): ReturnMessage {
    var out := OutArgumentsOf(call.parameters, args);
    if out.Ok? then ReturnValue(result, out.value.args, out.value.count) else ReturnException(out.error)
  }

  /** One pass of `while (returnMessage == null)`. */
  function StepOf(call: MethodCall, a: Attempt, subscribers: Option<Handler>, attempt: nat): Step {
    match a
    case Returned(result, args) => Done(ReturnFor(call, result, args), [])
    case Threw(TargetInvocationException(inner)) =>
      if IsTransient(inner) then
        if RetryAfterNotice(subscribers, attempt, inner) then Again(Notice(attempt, inner, true))
        else Done(ReturnException(inner), [Notice(attempt, inner, false)])
      else Done(ReturnException(inner), [])
    case Threw(ex) => Done(ReturnException(ex), [])
  }

  /** What the loop produced: its outcome, the notices raised, and how many times it called the channel. */
  datatype RunResult = RunResult(outcome: InvokeOutcome, notices: seq<Notice>, attempts: nat)

  /** The loop from attempt `attempt` on, with `fuel` passes left. */
  function Run(call: MethodCall, invoke: nat -> Attempt, subscribers: Option<Handler>, attempt: nat, fuel: nat): RunResult
    decreases fuel
  {
    if fuel == 0 then RunResult(Exhausted, [], 0)
    else
      match StepOf(call, invoke(attempt), subscribers, attempt)
      case Done(message, notices) => RunResult(Completed(message), notices, 1)
      case Again(notice) =>
        var rest := Run(call, invoke, subscribers, attempt + 1, fuel - 1);
        RunResult(rest.outcome, [notice] + rest.notices, rest.attempts + 1)
  }

  /** `ConnectionErrorEventArgs`: the error reported and whether the operation should be retried. */
  class ConnectionErrorEventArgs {
    var error: Option<Exception>
    var retry: bool

    constructor()
      ensures error == None && !retry
    {
      error := None;
      retry := false;
    }

    constructor WithError(e: Exception)
      ensures error == Some(e) && !retry
    {
      error := Some(e);
      retry := false;
    }
  }

  /** `ServiceProxy.OnConnectionError`: raises the event when someone subscribed. */
  method OnConnectionError(e: ConnectionErrorEventArgs, subscribers: Option<Handler>, attempt: nat)
    modifies e
    ensures e.error == old(e.error)
    ensures e.retry == if subscribers.Some? then subscribers.value(attempt, old(e.error), old(e.retry)) else old(e.retry)
  {
    if subscribers.Some? {
      e.retry := subscribers.value(attempt, e.error, e.retry);
    }
  }

  const ExpectedCallMessage := "Expected an IMethodCallMessage."

  /**
   * `ClientProxy.Invoke`: runs the call until a return message exists.  A
   * transient inner failure raises a notification and is retried while the
   * subscribers set `Retry`; any other failure ends the loop.  `fuel`
   * bounds the passes; the notices raised are returned beside the outcome.
   */
  method Invoke(message: Option<MethodCall>, invoke: nat -> Attempt, subscribers: Option<Handler>, fuel: nat)
    returns (r: Result<InvokeOutcome, ArgumentValidator.ArgumentError>, notices: seq<Notice>, attempts: nat)
    ensures message.None? ==>
      r == Err(ArgumentValidator.ArgumentException(ExpectedCallMessage, Some("message"))) && notices == [] && attempts == 0
    ensures message.Some? ==>
      var run := Run(message.value, invoke, subscribers, 0, fuel);
      r == Ok(run.outcome) && notices == run.notices && attempts == run.attempts
  {
    notices := [];
    attempts := 0;
    if message.None? {
      r := Err(ArgumentValidator.ArgumentException(ExpectedCallMessage, Some("message")));
      return;
    }
    var call := message.value;
    var returnMessage: Option<ReturnMessage> := None;
    assert notices + Run(call, invoke, subscribers, 0, fuel).notices == Run(call, invoke, subscribers, 0, fuel).notices;
    while returnMessage.None? && attempts < fuel
      invariant attempts <= fuel
      invariant returnMessage.None? ==>
        Run(call, invoke, subscribers, 0, fuel) == After(notices, attempts, Run(call, invoke, subscribers, attempts, fuel - attempts))
      invariant returnMessage.Some? ==>
        Run(call, invoke, subscribers, 0, fuel) == RunResult(Completed(returnMessage.value), notices, attempts)
      decreases fuel - attempts, if returnMessage.None? then 1 else 0
    {
      var a := invoke(attempts);
      RunStep(call, invoke, subscribers, attempts, fuel - attempts, notices, attempts);
      if a.Returned? {
        var out := GetOutArguments(call.parameters, a.args);
        if out.Ok? {
          returnMessage := Some(ReturnValue(a.result, out.value.args, out.value.count));
        } else {
          returnMessage := Some(ReturnException(out.error));
        }
        assert StepOf(call, a, subscribers, attempts) == Done(returnMessage.value, []);
      } else if a.error.TargetInvocationException? {
        var inner := a.error.inner;
        if IsTransient(inner) {
          var e := new ConnectionErrorEventArgs.WithError(inner);
          OnConnectionError(e, subscribers, attempts);
          assert e.retry == RetryAfterNotice(subscribers, attempts, inner);
          notices := notices + [Notice(attempts, inner, e.retry)];
          if !e.retry {
            returnMessage := Some(ReturnException(inner));
            assert StepOf(call, a, subscribers, attempts) == Done(ReturnException(inner), [Notice(attempts, inner, false)]);
          } else {
            assert StepOf(call, a, subscribers, attempts) == Again(Notice(attempts, inner, true));
          }
        } else {
          returnMessage := Some(ReturnException(inner));
          assert StepOf(call, a, subscribers, attempts) == Done(returnMessage.value, []);
        }
      } else {
        returnMessage := Some(ReturnException(a.error));
        assert StepOf(call, a, subscribers, attempts) == Done(returnMessage.value, []);
      }
      attempts := attempts + 1;
    }
    r := Ok(if returnMessage.Some? then Completed(returnMessage.value) else Exhausted);
    if returnMessage.None? {
      assert notices + Run(call, invoke, subscribers, attempts, 0).notices == notices;
    }
  }

  /** A run that follows `done` earlier passes which raised the notices `before`. */
  function After(before: seq<Notice>, done: nat, run: RunResult): RunResult {
    RunResult(run.outcome, before + run.notices, done + run.attempts)
  }

  /** One pass of the loop after earlier ones: it either finishes the run or hands over to the next pass. */
  lemma RunStep(call: MethodCall, invoke: nat -> Attempt, subscribers: Option<Handler>, attempt: nat, fuel: nat, before: seq<Notice>, done: nat)
    requires fuel > 0
    ensures StepOf(call, invoke(attempt), subscribers, attempt).Done? ==>
      After(before, done, Run(call, invoke, subscribers, attempt, fuel)) ==
        RunResult(Completed(StepOf(call, invoke(attempt), subscribers, attempt).message),
                  before + StepOf(call, invoke(attempt), subscribers, attempt).notices, done + 1)
    ensures StepOf(call, invoke(attempt), subscribers, attempt).Again? ==>
      After(before, done, Run(call, invoke, subscribers, attempt, fuel)) ==
        After(before + [StepOf(call, invoke(attempt), subscribers, attempt).notice], done + 1,
              Run(call, invoke, subscribers, attempt + 1, fuel - 1))
  {
    var st := StepOf(call, invoke(attempt), subscribers, attempt);
    if st.Again? {
      var next := Run(call, invoke, subscribers, attempt + 1, fuel - 1);
      assert before + ([st.notice] + next.notices) == (before + [st.notice]) + next.notices;
    }
  }

  /** A failure whose inner exception is not transient is returned after one attempt, with no notification. */
  lemma TerminalFailureEndsAtOnce(call: MethodCall, invoke: nat -> Attempt, subscribers: Option<Handler>, attempt: nat, fuel: nat, inner: Exception)
    requires fuel > 0 && invoke(attempt) == Threw(TargetInvocationException(inner)) && !IsTransient(inner)
    ensures Run(call, invoke, subscribers, attempt, fuel) == RunResult(Completed(ReturnException(inner)), [], 1)
  {
  }

  /** A declined retry raises exactly one notification, with `Retry` false, and returns the inner error. */
  lemma DeclinedRetryReturnsInner(call: MethodCall, invoke: nat -> Attempt, subscribers: Option<Handler>, attempt: nat, fuel: nat, inner: Exception)
    requires fuel > 0 && invoke(attempt) == Threw(TargetInvocationException(inner)) && IsTransient(inner)
    requires !RetryAfterNotice(subscribers, attempt, inner)
    ensures Run(call, invoke, subscribers, attempt, fuel)
        == RunResult(Completed(ReturnException(inner)), [Notice(attempt, inner, false)], 1)
  {
  }

  /** With nobody subscribed a transient failure is not retried. */
  lemma NoSubscriberNoRetry(attempt: nat, inner: Exception)
    ensures !RetryAfterNotice(None, attempt, inner)
  {
  }

  /** An exception other than `TargetInvocationException` is returned as it is, unclassified and unreported. */
  lemma OtherExceptionReturnedAsIs(call: MethodCall, invoke: nat -> Attempt, subscribers: Option<Handler>, attempt: nat, fuel: nat, ex: Exception)
    requires fuel > 0 && invoke(attempt) == Threw(ex) && !ex.TargetInvocationException?
    ensures Run(call, invoke, subscribers, attempt, fuel) == RunResult(Completed(ReturnException(ex)), [], 1)
  {
  }

  /** A successful call returns its result and the out-argument vector. */
  lemma SuccessReturnsOutArguments(call: MethodCall, invoke: nat -> Attempt, subscribers: Option<Handler>, attempt: nat, fuel: nat,
                                   result: Value, args: seq<Value>)
    requires fuel > 0 && invoke(attempt) == Returned(result, args) && |args| <= |call.parameters|
    ensures Run(call, invoke, subscribers, attempt, fuel)
        == RunResult(Completed(ReturnValue(result, OutArgumentsOf(call.parameters, args).value.args, OutCount(call.parameters[..|args|]))), [], 1)
  {
  }

  /** A finished pass raised no notice, or one declined notice whose error it returns. */
  lemma DoneStepShape(call: MethodCall, a: Attempt, subscribers: Option<Handler>, attempt: nat)
    ensures var step := StepOf(call, a, subscribers, attempt);
      step.Done? ==>
        (step.notices == []
         || (|step.notices| == 1 && step.notices[0].attempt == attempt && !step.notices[0].retry
             && IsTransient(step.notices[0].error) && step.message == ReturnException(step.notices[0].error)))
    ensures var step := StepOf(call, a, subscribers, attempt);
      step.Again? ==> step.notice.attempt == attempt && step.notice.retry && IsTransient(step.notice.error)
  {
  }

  /**
   * The shape of every run.  The notices are for consecutive attempts and
   * all but the last asked for a retry.  The channel is called once per
   * notice plus once for a final attempt that raised none, so a new attempt
   * follows only a retried notice.  The loop runs out of fuel only when
   * every pass was a retried transient failure, and a run that ends on a
   * declined notice returns that notice's error.
   */
  lemma {:induction false} RunShape(call: MethodCall, invoke: nat -> Attempt, subscribers: Option<Handler>, attempt: nat, fuel: nat)
    ensures var run := Run(call, invoke, subscribers, attempt, fuel);
      var n := |run.notices|;
      run.attempts <= fuel
      && (forall j :: 0 <= j < n ==> run.notices[j].attempt == attempt + j && IsTransient(run.notices[j].error))
      && (forall j :: 0 <= j < n - 1 ==> run.notices[j].retry)
      && (run.outcome.Exhausted? <==> run.attempts == fuel && n == fuel && forall j :: 0 <= j < n ==> run.notices[j].retry)
      && (n > 0 && !run.notices[n - 1].retry ==>
            run.outcome == Completed(ReturnException(run.notices[n - 1].error)) && run.attempts == n)
      && (run.outcome.Completed? && (n == 0 || run.notices[n - 1].retry) ==> run.attempts == n + 1)
    decreases fuel
  {
    if fuel > 0 {
      match StepOf(call, invoke(attempt), subscribers, attempt)
      case Done(message, notices) =>
        DoneStepShape(call, invoke(attempt), subscribers, attempt);
        assert Run(call, invoke, subscribers, attempt, fuel) == RunResult(Completed(message), notices, 1);
      case Again(notice) =>
        RunShape(call, invoke, subscribers, attempt + 1, fuel - 1);
        var rest := Run(call, invoke, subscribers, attempt + 1, fuel - 1);
        var all := [notice] + rest.notices;
        assert forall j :: 1 <= j < |all| ==> all[j] == rest.notices[j - 1];
    }
  }

  // ----- the proxy and its client -----

  datatype CommunicationState = Created | Opening | Opened | Closing | Closed | Faulted

  datatype Binding = NetTcpBinding(configurationName: string) | OtherBinding(name: string)

  /** `GetDefaultBinding`. */
  const DefaultBinding := NetTcpBinding("DefaultNetTcpBinding")

  datatype EndpointAddress = EndpointAddress(uri: string, identity: string)

  const DummyIdentity := "Dummy\\Dummy"
  const TcpScheme := "net.tcp://"

  /**
   * `CreateEndpointAddress`: `net.tcp://{server}/{contract name without its
   * first character}` (the leading `I` of an interface name) with a fixed
   * SPN identity.  A type name is never empty.
   */
  function CreateEndpointAddress(contractName: string, server: string): (a: EndpointAddress)
    requires |contractName| > 0
    ensures a.identity == DummyIdentity
    ensures |a.uri| == |TcpScheme| + |server| + |contractName|
  {
    EndpointAddress(TcpScheme + server + "/" + contractName[1..], DummyIdentity)
  }

  /** The position of the first `c` in `s`, if any. */
  function IndexOf(s: string, c: char): (r: Option<nat>)
    ensures r.Some? ==> r.value < |s| && s[r.value] == c && forall j :: 0 <= j < r.value ==> s[j] != c
    ensures r.None? ==> c !in s
    decreases |s|
  {
    if |s| == 0 then None
    else if s[0] == c then Some(0)
    else
      var r := IndexOf(s[1..], c);
      assert forall j :: 1 <= j < |s| ==> s[j] == s[1..][j - 1];
      if r.Some? then Some(r.value + 1) else None
  }

  /** Reads a `net.tcp://server/path` address back into its server and path. */
  function ParseTcpUri(uri: string): Option<(string, string)> {
    if |uri| < |TcpScheme| || uri[..|TcpScheme|] != TcpScheme then None
    else
      var rest := uri[|TcpScheme|..];
      var slash := IndexOf(rest, '/');
      if slash.None? then None else Some((rest[..slash.value], rest[slash.value + 1..]))
  }

  /** The address keeps the server and drops exactly the contract name's first character. */
  lemma EndpointAddressRoundTrip(contractName: string, server: string)
    requires |contractName| > 0 && '/' !in server
    ensures ParseTcpUri(CreateEndpointAddress(contractName, server).uri) == Some((server, contractName[1..]))
  {
    var uri := CreateEndpointAddress(contractName, server).uri;
    var rest := uri[|TcpScheme|..];
    assert uri[..|TcpScheme|] == TcpScheme;
    assert rest == server + "/" + contractName[1..];
    assert rest[|server|] == '/';
    assert IndexOf(rest, '/') == Some(|server|);
    assert rest[..|server|] == server;
    assert rest[|server| + 1..] == contractName[1..];
  }

  /** The server address formed from the configured `ServerName` and `PortNumber`; null formats as empty. */
  function ServerAddressOf(serverName: Option<string>, portNumber: Option<string>): (s: string)
    ensures |s| > 0
  {
    serverName.GetOr("") + ":" + portNumber.GetOr("")
  }

  /** With a server name free of `:`, the address splits back into name and port. */
  lemma ServerAddressRoundTrip(serverName: string, portNumber: string)
    requires ':' !in serverName
    ensures var s := ServerAddressOf(Some(serverName), Some(portNumber));
      IndexOf(s, ':') == Some(|serverName|) && s[..|serverName|] == serverName && s[|serverName| + 1..] == portNumber
  {
    var s := ServerAddressOf(Some(serverName), Some(portNumber));
    assert s[|serverName|] == ':';
    assert forall j :: 0 <= j < |serverName| ==> s[j] == serverName[j];
    assert s[..|serverName|] == serverName;
    assert s[|serverName| + 1..] == portNumber;
  }

  /** Which base constructor a client was created with. */
  datatype ClientConstructor = ByEndpointConfiguration(name: string) | ByBinding(binding: Binding) | ByDefault

  datatype ImpersonationLevel = Identification | Impersonation | Delegation

  /** A `Client` or `DuplexClient`; the callback is passed only to a duplex one. */
  datatype ClientRecord = ClientRecord(
    id: nat,
    duplex: bool,
    callback: Value,
    clientConstructor: ClientConstructor,
    address: Option<EndpointAddress>,
    state: CommunicationState,
    impersonation: ImpersonationLevel)

  /** `CreateClient`'s choice: an endpoint configuration name, else a binding, else the default constructor. */
  function ChooseConstructor(endpointConfigurationName: Option<string>, binding: Option<Binding>): (c: ClientConstructor)
    ensures endpointConfigurationName.Some? <==> c.ByEndpointConfiguration?
    ensures c.ByEndpointConfiguration? ==> c.name == endpointConfigurationName.value
    ensures c.ByBinding? <==> endpointConfigurationName.None? && binding.Some?
    ensures c.ByBinding? ==> c.binding == binding.value
  {
    if endpointConfigurationName.Some? then ByEndpointConfiguration(endpointConfigurationName.value)
    else if binding.Some? then ByBinding(binding.value)
    else ByDefault
  }

  /** A client past use: the `Channel` getter replaces it. */
  predicate NeedsNewClient(client: Option<ClientRecord>) {
    client.None? || client.value.state in {Faulted, Closing, Closed}
  }

  /** What the `Channel` getter hands out: the client's transparent proxy, or the channel given at creation. */
  datatype ChannelHandle = FromClient(clientId: nat) | Stored(channel: Value)

  /** What happened to a client: disposed (errors ignored), closed, or aborted. */
  datatype ClientAction = Disposed(id: nat) | ClosedClient(id: nat) | Aborted(id: nat)

  /** How `client.Close()` ends: it returns, or it throws `error`. */
  datatype CloseOutcome = CloseSucceeded | CloseFailed(error: Exception)

  /** `Proxy<TContract>`: the configuration it was made with and the client it currently holds. */
  class Proxy {
    const contractName: string
    const callbackInstance: Value
    const binding: Option<Binding>
    const endpointConfigurationName: Option<string>
    const remoteAddress: Option<EndpointAddress>
    var useServiceModel: Option<bool>
    var client: Option<ClientRecord>
    var channel: Value
    /** The lazily read `ServerAddress`. */
    var serverAddress: Option<string>
    var isDuplex: bool
    var nextClientId: nat
    /** Every close, abort and dispose this proxy did, in order. */
    var clientLog: seq<ClientAction>

    /**
     * The main private constructor.  A given address switches to the service
     * model.  With neither an address nor an endpoint configuration name,
     * the configured server address (read now, and never empty) supplies the
     * address and the default binding fills a missing binding.
     */
    constructor(contractName: string, callbackInstance: Value, endpointConfigurationName: Option<string>,
                binding: Option<Binding>, endpointAddress: Option<EndpointAddress>,
                configuredServerName: Option<string>, configuredPortNumber: Option<string>)
      requires |contractName| > 0
      ensures this.contractName == contractName && this.callbackInstance == callbackInstance
      ensures this.endpointConfigurationName == endpointConfigurationName
      ensures useServiceModel == Some(true) && client.None? && channel.None?
      ensures isDuplex == callbackInstance.Some?
      ensures nextClientId == 0 && clientLog == []
      ensures var derive := endpointAddress.None? && (endpointConfigurationName.None? || endpointConfigurationName == Some(""));
        && (derive ==> (serverAddress == Some(ServerAddressOf(configuredServerName, configuredPortNumber))
                        && this.binding == Some(binding.GetOr(DefaultBinding))
                        && remoteAddress == Some(CreateEndpointAddress(contractName, ServerAddressOf(configuredServerName, configuredPortNumber)))))
        && (!derive ==> serverAddress.None? && this.binding == binding && remoteAddress == endpointAddress)
    {
      var b := binding;
      var a := endpointAddress;
      var cached: Option<string> := None;
      if endpointAddress.None? && (endpointConfigurationName.None? || endpointConfigurationName == Some("")) {
        var address := ServerAddressOf(configuredServerName, configuredPortNumber);
        cached := Some(address);
        if |address| > 0 {
          b := Some(binding.GetOr(DefaultBinding));
          a := Some(CreateEndpointAddress(contractName, address));
        }
      }
      this.contractName := contractName;
      this.callbackInstance := callbackInstance;
      this.endpointConfigurationName := endpointConfigurationName;
      this.binding := b;
      remoteAddress := a;
      useServiceModel := Some(true);
      client := None;
      channel := None;
      serverAddress := cached;
      isDuplex := callbackInstance.Some?;
      nextClientId := 0;
      clientLog := [];
    }

    /** `Proxy(serverName)`: the default binding and an address for the named server. */
    constructor FromServerName(contractName: string, serverName: string)
      requires |contractName| > 0
      ensures this.contractName == contractName && callbackInstance.None? && endpointConfigurationName.None?
      ensures binding == Some(DefaultBinding) && remoteAddress == Some(CreateEndpointAddress(contractName, serverName))
      ensures useServiceModel == Some(true) && client.None? && !isDuplex
      ensures nextClientId == 0 && clientLog == [] && serverAddress.None?
    {
      this.contractName := contractName;
      callbackInstance := None;
      endpointConfigurationName := None;
      binding := Some(DefaultBinding);
      remoteAddress := Some(CreateEndpointAddress(contractName, serverName));
      useServiceModel := Some(true);
      client := None;
      channel := None;
      serverAddress := None;
      isDuplex := false;
      nextClientId := 0;
      clientLog := [];
    }

    /** `Proxy(channel)`: wraps a channel directly, outside the service model. */
    constructor FromChannel(contractName: string, channel: Value)
      ensures this.contractName == contractName && this.channel == channel
      ensures useServiceModel == Some(false) && client.None?
      ensures nextClientId == 0 && clientLog == []
    {
      this.contractName := contractName;
      callbackInstance := None;
      endpointConfigurationName := None;
      binding := None;
      remoteAddress := None;
      useServiceModel := Some(false);
      client := None;
      this.channel := channel;
      serverAddress := None;
      isDuplex := false;
      nextClientId := 0;
      clientLog := [];
    }

    /** The client `CreateClient` makes with identity `id`; the default constructor takes its endpoint from configuration, not from `remoteAddress`. */
    function NewClient(id: nat): (c: ClientRecord)
      reads this
      ensures c.duplex == isDuplex && c.state == Created && c.impersonation == Delegation
      ensures c.clientConstructor == ChooseConstructor(endpointConfigurationName, binding)
      ensures c.address == (if c.clientConstructor.ByDefault? then None else remoteAddress)
    {
      var ctor := ChooseConstructor(endpointConfigurationName, binding);
      ClientRecord(id, isDuplex, if isDuplex then callbackInstance else None,
                   ctor, if ctor.ByDefault? then None else remoteAddress, Created, Delegation)
    }

    /** `CreateClient`: a fresh client by the constructor precedence, allowed to delegate impersonation. */
    method CreateClient()
      modifies this
      ensures client == Some(NewClient(old(nextClientId)))
      ensures nextClientId == old(nextClientId) + 1
      ensures useServiceModel == old(useServiceModel) && channel == old(channel) && clientLog == old(clientLog)
      ensures isDuplex == old(isDuplex) && serverAddress == old(serverAddress)
    {
      var ctor := ChooseConstructor(endpointConfigurationName, binding);
      var c := ClientRecord(nextClientId, isDuplex, if isDuplex then callbackInstance else None,
                            ctor, if ctor.ByDefault? then None else remoteAddress, Created, Delegation);
      client := Some(c);
      nextClientId := nextClientId + 1;
    }

    /**
     * The `Channel` getter.  In service-model mode a missing client is
     * created, and a faulted, closing or closed one is disposed (errors
     * ignored) and replaced; otherwise the stored channel is returned.
     */
    method Channel() returns (ch: ChannelHandle)
      modifies this
      ensures old(useServiceModel) != Some(true) ==>
        ch == Stored(channel) && client == old(client) && nextClientId == old(nextClientId) && clientLog == old(clientLog)
      ensures old(useServiceModel) == Some(true) && !NeedsNewClient(old(client)) ==>
        ch == FromClient(old(client).value.id) && client == old(client)
        && nextClientId == old(nextClientId) && clientLog == old(clientLog)
      ensures old(useServiceModel) == Some(true) && NeedsNewClient(old(client)) ==>
        ch == FromClient(old(nextClientId)) && client == Some(NewClient(old(nextClientId)))
        && nextClientId == old(nextClientId) + 1
        && clientLog == old(clientLog) + (if old(client).Some? then [Disposed(old(client).value.id)] else [])
      ensures useServiceModel == old(useServiceModel) && channel == old(channel) && isDuplex == old(isDuplex)
    {
      if useServiceModel == Some(true) {
        if client.None? {
          CreateClient();
        } else if client.value.state == Faulted || client.value.state == Closing || client.value.state == Closed {
          clientLog := clientLog + [Disposed(client.value.id)];
          CreateClient();
        }
        return FromClient(client.value.id);
      } else {
        return Stored(channel);
      }
    }

    /**
     * `Dispose`: closes a present client that has not faulted, aborting it
     * when the close throws `TimeoutException`.  Any other exception from the
     * close propagates.
     */
    method Dispose(close: CloseOutcome) returns (r: Result<(), Exception>)
      modifies this
      ensures old(client).None? || old(client).value.state == Faulted ==>
        r == Ok(()) && client == old(client) && clientLog == old(clientLog)
      ensures old(client).Some? && old(client).value.state != Faulted ==>
        match close
        case CloseSucceeded =>
          r == Ok(()) && client == Some(old(client).value.(state := Closed))
          && clientLog == old(clientLog) + [ClosedClient(old(client).value.id)]
        case CloseFailed(e) =>
          if e.TimeoutException? then
            r == Ok(()) && client == Some(old(client).value.(state := Closed))
            && clientLog == old(clientLog) + [Aborted(old(client).value.id)]
          else
            r == Err(e) && client == old(client) && clientLog == old(clientLog)
      ensures nextClientId == old(nextClientId) && useServiceModel == old(useServiceModel)
    {
      if client.Some? && client.value.state != Faulted {
        match close {
          case CloseSucceeded =>
            clientLog := clientLog + [ClosedClient(client.value.id)];
            client := Some(client.value.(state := Closed));
          case CloseFailed(e) =>
            if !e.TimeoutException? {
              return Err(e);
            }
            clientLog := clientLog + [Aborted(client.value.id)];
            client := Some(client.value.(state := Closed));
        }
      }
      return Ok(());
    }
  }
}
