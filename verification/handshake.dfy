/**
 * How the command-line client obtains its CLI binder: `Main.connectToService`
 * (PIN resolution, the platform transaction, at most one interactive retry and
 * the choice between the two authentication messages) and `Main.getManager`,
 * which caches the first handle for the rest of the process.
 */
module Handshake {
  import opened Scopes

  /** What the platform side yields before any PIN is sent. */
  datatype Transport =
    | NoActivityService   // ServiceManager.getService("activity") is null
    | TransactionFailed   // transact(...) returned false
    | ReplyException      // reply.readException() rethrows what the daemon wrote into the reply
    | NoServiceBinder     // the reply carries no service binder
    | ServiceBinder       // the daemon's application service is reachable

  /** A CLI binder handed out by the daemon's `requestCLIBinder`. */
  datatype Handle = Handle(id: nat)

  /**
   * The daemon's answer to one `requestCLIBinder` call: it appends a binder,
   * leaves the list empty, or the call throws a RemoteException.
   */
  datatype Reply = Granted(handle: Handle) | Refused | Thrown

  /** The exceptions `connectToService` throws. */
  datatype Failure =
    | Remote(transport: Transport)              // RemoteException, one message per transport failure
    | AuthenticationRequired                    // SecurityException: no PIN was given by argument or environment
    | AuthenticationFailed                      // SecurityException: the given PIN was rejected
    | RequestFailed                             // RemoteException out of a requestCLIBinder call

  datatype Outcome = Connected(handle: Handle) | Failed(failure: Failure)

  /** The interactive terminal: absent, or present with what `readPassword` returns (null at end of input). */
  datatype Terminal = NoConsole | Console(entered: Option<string>)

  /**
   * One run of `connectToService`: its outcome, the PINs it passed to
   * `requestCLIBinder` in order, whether it prompted, and the final `this.pin`.
   */
  datatype Attempt = Attempt(outcome: Outcome, requests: seq<Option<string>>, prompted: bool, pin: Option<string>)

  /**
   * The specification of `connectToService`.  `argPin` is the `--pin` option,
   * `envPin` the `LSPOSED_CLI_PIN` variable, and `grant` the daemon's answer to
   * `requestCLIBinder` for a PIN.
   */
  function Connect(argPin: Option<string>, envPin: Option<string>, transport: Transport,
                   terminal: Terminal, grant: Option<string> -> Reply): (a: Attempt)
    // transport failures come before any PIN is sent and are not authentication errors
    ensures transport != ServiceBinder ==> a.outcome == Failed(Remote(transport)) && a.requests == [] && !a.prompted
    // the first request carries --pin if given, else the environment variable
    ensures transport == ServiceBinder ==>
      1 <= |a.requests| <= 2 && a.requests[0] == (if argPin.Some? then argPin else envPin)
    // the prompt appears only after an empty first answer, with no PIN resolved, on a console
    ensures a.prompted <==>
      transport == ServiceBinder && argPin.None? && envPin.None? && grant(None) == Refused && terminal.Console?
    // a second request happens only after a prompt that returned a PIN, and sends that PIN
    ensures |a.requests| == 2 <==> a.prompted && terminal.entered.Some?
    ensures |a.requests| == 2 ==> a.requests[1] == terminal.entered
    // every request but the last was refused; success means the last was granted, failure that none was
    ensures forall i :: 0 <= i < |a.requests| - 1 ==> grant(a.requests[i]) == Refused
    ensures a.outcome.Connected? ==> a.requests != [] && grant(a.requests[|a.requests| - 1]) == Granted(a.outcome.handle)
    ensures a.outcome.Failed? ==> forall i :: 0 <= i < |a.requests| ==> !grant(a.requests[i]).Granted?
    // a request that throws ends the handshake with its RemoteException, whether or not a PIN was sent
    ensures a.outcome == Failed(RequestFailed) <==> a.requests != [] && grant(a.requests[|a.requests| - 1]) == Thrown
    ensures transport == ServiceBinder ==> a.outcome.Failed? ==>
      a.outcome.failure in {AuthenticationRequired, AuthenticationFailed, RequestFailed}
    // the guidance message depends only on whether --pin or the environment gave a PIN
    ensures a.outcome == Failed(AuthenticationRequired) ==> argPin.None? && envPin.None?
    ensures a.outcome == Failed(AuthenticationFailed) ==> argPin.Some? || envPin.Some?
    // `this.pin` ends as the last PIN sent, or the resolved one when nothing was sent
    ensures a.pin == (if |a.requests| == 2 then terminal.entered else if argPin.Some? then argPin else envPin)
  {
    var initialPin := if argPin.Some? then argPin else envPin;
    if transport != ServiceBinder then Attempt(Failed(Remote(transport)), [], false, initialPin)
    else
      match grant(initialPin)
      case Thrown => Attempt(Failed(RequestFailed), [initialPin], false, initialPin)
      case Granted(handle) => Attempt(Connected(handle), [initialPin], false, initialPin)
      case Refused =>
        var rejection := if initialPin.None? then AuthenticationRequired else AuthenticationFailed;
        if initialPin.None? && terminal.Console? then
          match terminal.entered
          case None => Attempt(Failed(rejection), [initialPin], true, initialPin)
          case Some(typed) =>
            match grant(Some(typed))
            case Thrown => Attempt(Failed(RequestFailed), [initialPin, Some(typed)], true, Some(typed))
            case Granted(handle) => Attempt(Connected(handle), [initialPin, Some(typed)], true, Some(typed))
            case Refused => Attempt(Failed(rejection), [initialPin, Some(typed)], true, Some(typed))
        else Attempt(Failed(rejection), [initialPin], false, initialPin)
  }

  /** An interactive PIN that the daemon rejects still ends in the "Authentication required" guidance. */
  lemma RejectedPromptGivesGuidance(typed: string, grant: Option<string> -> Reply)
    requires grant(None) == Refused && grant(Some(typed)) == Refused
    ensures var a := Connect(None, None, ServiceBinder, Console(Some(typed)), grant);
      a.outcome == Failed(AuthenticationRequired) && a.requests == [None, Some(typed)] && a.pin == Some(typed)
  {
  }

  /** What `getManager` returns, or the process exit it performs. */
  datatype ExitCode = NoDaemon
  datatype ManagerResult = Manager(handle: Handle) | Exit(code: ExitCode, failure: Failure)

  class Main {
    /** The `--pin` option, reassigned by `connectToService`. */
    var pin: Option<string>
    /** `objManager`: static in the source, so one per process. */
    var objManager: Option<Handle>

    constructor (pinOption: Option<string>)
      ensures pin == pinOption && objManager == None
    {
      pin := pinOption;
      objManager := None;
    }

    /**
     * `requestCLIBinder(pin, lstBinder)`: the daemon appends a binder when it
     * accepts; `thrown` is the RemoteException of a call that failed.
     */
    static method RequestCliBinder(pin: Option<string>, lstBinder: seq<Handle>,
                                   grant: Option<string> -> Reply) returns (filled: seq<Handle>, thrown: bool)
      ensures thrown <==> grant(pin) == Thrown
      ensures filled == if grant(pin).Granted? then lstBinder + [grant(pin).handle] else lstBinder
    {
      filled, thrown := lstBinder, false;
      match grant(pin)
      case Thrown => thrown := true;
      case Refused =>
      case Granted(handle) => filled := filled + [handle];
    }

    method ConnectToService(envPin: Option<string>, transport: Transport, terminal: Terminal,
                            grant: Option<string> -> Reply)
      returns (outcome: Outcome, requests: seq<Option<string>>, prompted: bool)
      modifies this`pin
      ensures Attempt(outcome, requests, prompted, pin) == Connect(old(pin), envPin, transport, terminal, grant)
    {
      var initialPin := pin;
      if initialPin.None? {
        initialPin := envPin;
      }
      pin := initialPin;
      requests, prompted := [], false;

      if transport != ServiceBinder {
        return Failed(Remote(transport)), requests, prompted;
      }

      var lstBinder: seq<Handle> := [];
      var thrown;
      lstBinder, thrown := RequestCliBinder(pin, lstBinder, grant);
      requests := requests + [pin];
      if thrown {
        return Failed(RequestFailed), requests, prompted;
      }

      if lstBinder == [] && pin.None? && terminal.Console? {
        prompted := true;
        var pinChars := terminal.entered;
        if pinChars.Some? {
          pin := pinChars;
          lstBinder, thrown := RequestCliBinder(pin, lstBinder, grant);
          requests := requests + [pin];
          if thrown {
            return Failed(RequestFailed), requests, prompted;
          }
        }
      }

      if lstBinder == [] {
        if initialPin.None? {
          outcome := Failed(AuthenticationRequired);
        } else {
          outcome := Failed(AuthenticationFailed);
        }
        return;
      }
      outcome := Connected(lstBinder[0]);
    }

    /**
     * `getManager()`: the cached handle if there is one; otherwise one handshake,
     * whose handle is cached, and any handshake exception exits with NO_DAEMON.
     */
    method GetManager(envPin: Option<string>, transport: Transport, terminal: Terminal,
                      grant: Option<string> -> Reply) returns (r: ManagerResult)
      modifies this
      ensures old(objManager).Some? ==>
        r == Manager(old(objManager).value) && objManager == old(objManager) && pin == old(pin)
      ensures old(objManager).None? ==>
        var a := Connect(old(pin), envPin, transport, terminal, grant);
        && pin == a.pin
        && (a.outcome.Connected? ==> r == Manager(a.outcome.handle) && objManager == Some(a.outcome.handle))
        && (a.outcome.Failed? ==> r == Exit(NoDaemon, a.outcome.failure) && objManager == None)
    {
      if objManager.Some? {
        return Manager(objManager.value);
      }
      var outcome, _, _ := ConnectToService(envPin, transport, terminal, grant);
      match outcome
      case Connected(handle) =>
        objManager := Some(handle);
        r := Manager(handle);
      case Failed(failure) =>
        r := Exit(NoDaemon, failure);
    }
  }
}
