/** The service manager as the installer's scripts see it: a record of keys and
    values with a run state, changed by commands that may fail or be cut short. */
module Nssm {
  import opened Text

  /** The settings the scripts name; the manager keeps others. */
  datatype Key =
    | AppParameters | AppDirectory | AppEnvironmentExtra | DisplayName | Description | Start
    | AppStdout | AppStderr | AppExitDefault | AppExit77 | AppExit78 | AppRestartDelay | AppNoConsole
    | ObjectName | Other(name: string)

  /** StartRequested: the start command succeeded; Running: polling saw RUNNING. */
  datatype RunState = Stopped | StartRequested | Running

  datatype Service = Service(application: string, config: map<Key, string>, state: RunState)

  // ---- The handoff context ----

  datatype Context = Context(schemaVersion: Option<int>, targetVersion: string, expiresAt: Option<int>, origin: string,
                             serviceExists: bool, serviceConfig: map<Key, string>, relaunchArguments: seq<string>)

  /** A context file either parses or does not. */
  datatype ContextFile = Malformed | Parsed(context: Context)

  datatype Host = Host(context: Option<ContextFile>, service: Option<Service>, launched: seq<seq<string>>)

  /** Where a script runs. `initial` is what the manager records for a service it has
      just installed. */
  datatype Params = Params(appPath: string, appDirectory: string, initial: map<Key, string>,
                           nssmPresent: bool, appPresent: bool, helperPresent: bool)

  // ---- Commands ----

  datatype Command =
    | EnsureLogs
    | StopService
    | RemoveService(redirected: bool)
    | InstallService(application: string)
    | SetValue(key: Key, value: string, optional: bool)
    | RejectAccount
    | StartService
    | ConfirmRunning
    | VerifyInstalled
    | ReportMissingHelper
    | StartAndPoll
    | Relaunch(arguments: seq<string>)
    | DeleteContext

  /** How the system answers a command. A command of the service manager that fails,
      or during which the script's process dies, may leave any record behind. A `loud`
      one wrote to its error stream, whatever it did: that ends a script which stops
      on errors and redirects the stream. */
  datatype Reply =
    | Succeeds
    | Fails(left: Option<Service>, loud: bool)
    | Dies(left: Option<Service>, deleted: bool)

  datatype Outcome = InProgress | Exit(code: int) | Dead {
    predicate IsFailure() {
      !InProgress?
    }

    function PropagateFailure(): Outcome {
      this
    }
  }

  function WithState(h: Host, state: RunState): Host {
    if h.service.Some? then h.(service := Some(h.service.value.(state := state))) else h
  }

  /** What `Start-Process` accepts: at least one argument, and none that is empty. */
  predicate Launchable(arguments: seq<string>) {
    arguments != [] && "" !in arguments
  }

  /** One command: the host after it, and whether the script goes on. */
  function Execute(c: Command, h: Host, p: Params, reply: Reply): (Host, Outcome) {
    match c
    case EnsureLogs =>
      (h, match reply case Succeeds => InProgress case Fails(_, _) => Exit(1) case Dies(_, _) => Dead)
    case StopService =>
      (match reply
       case Succeeds => (WithState(h, Stopped), InProgress)
       case Fails(left, loud) => (h.(service := left), if loud then Exit(1) else InProgress)
       case Dies(left, _) => (h.(service := left), Dead))
    case RemoveService(redirected) =>
      (match reply
       case Succeeds => (h.(service := None), InProgress)
       case Fails(left, loud) => (h.(service := left), if redirected && loud then Exit(1) else InProgress)
       case Dies(left, _) => (h.(service := left), Dead))
    case InstallService(application) =>
      if h.service.Some? then (h, Exit(1))
      else
        (match reply
         case Succeeds => (h.(service := Some(Service(application, p.initial, Stopped))), InProgress)
         case Fails(left, _) => (h.(service := left), Exit(1))
         case Dies(left, _) => (h.(service := left), Dead))
    case SetValue(key, value, optional) =>
      if h.service.None? then (h, if optional then InProgress else Exit(1))
      else
        var s := h.service.value;
        (match reply
         case Succeeds => (h.(service := Some(s.(config := s.config[key := value]))), InProgress)
         case Fails(left, _) => (h.(service := left), if optional then InProgress else Exit(1))
         case Dies(left, _) => (h.(service := left), Dead))
    case RejectAccount =>
      (h, if reply.Dies? then Dead else Exit(2))
    case StartService =>
      if h.service.None? then (h, Exit(1))
      else
        (match reply
         case Succeeds => (WithState(h, StartRequested), InProgress)
         case Fails(left, _) => (h.(service := left), Exit(1))
         case Dies(left, _) => (h.(service := left), Dead))
    case ConfirmRunning =>
      (match reply
       case Succeeds => (WithState(h, Running), InProgress)
       case Fails(_, _) => (h, Exit(2))
       case Dies(_, _) => (h, Dead))
    case VerifyInstalled =>
      (h, if reply.Dies? then Dead else if h.service.None? then Exit(1) else InProgress)
    case ReportMissingHelper =>
      (h, if reply.Dies? then Dead else Exit(1))
    case StartAndPoll =>
      (match reply
       case Succeeds => (WithState(h, Running), InProgress)
       case Fails(left, _) => (h.(service := left), Exit(2))
       case Dies(left, _) => (h.(service := left), Dead))
    case Relaunch(arguments) =>
      if !Launchable(arguments) then (h, if reply.Dies? then Dead else Exit(1))
      else
        (match reply
         case Succeeds => (h.(launched := h.launched + [arguments]), InProgress)
         case Fails(_, _) => (h, Exit(1))
         case Dies(_, _) => (h, Dead))
    case DeleteContext =>
      (match reply
       case Succeeds => (h.(context := None), InProgress)
       case Fails(_, _) => (h, InProgress)
       case Dies(_, deleted) => (if deleted then h.(context := None) else h, Dead))
  }

  // ---- Scripts ----

  /** The commands a script has still to issue; at the end it exits with 0. */
  datatype Script = Finished | Then(command: Command, rest: Script)

  datatype Run = Run(host: Host, outcome: Outcome)

  /** A run of a script against the answers `replies(tick)`, `replies(tick + 1)`, ... */
  function Perform(script: Script, h: Host, p: Params, replies: nat -> Reply, tick: nat): Run {
    match script
    case Finished => Run(h, Exit(0))
    case Then(c, rest) =>
      var (next, outcome) := Execute(c, h, p, replies(tick));
      if outcome.InProgress? then Perform(rest, next, p, replies, tick + 1) else Run(next, outcome)
  }

  /** The machine on which the scripts run. */
  class Machine {
    var context: Option<ContextFile>
    var service: Option<Service>
    var launched: seq<seq<string>>
    var tick: nat
    const replies: nat -> Reply

    function Snapshot(): Host
      reads this
    {
      Host(context, service, launched)
    }

    constructor (h: Host, replies: nat -> Reply)
      ensures Snapshot() == h && this.replies == replies && tick == 0
    {
      context, service, launched := h.context, h.service, h.launched;
      tick, this.replies := 0, replies;
    }

    /** Issues one command; `rest` is what the script does afterwards. */
    method Issue(c: Command, p: Params, ghost rest: Script) returns (outcome: Outcome)
      modifies this`context, this`service, this`launched, this`tick
      ensures tick == old(tick) + 1
      ensures (Snapshot(), outcome) == Execute(c, old(Snapshot()), p, replies(old(tick)))
      ensures Perform(Then(c, rest), old(Snapshot()), p, replies, old(tick))
           == if outcome.InProgress? then Perform(rest, Snapshot(), p, replies, tick) else Run(Snapshot(), outcome)
    {
      var (next, result) := Execute(c, Snapshot(), p, replies(tick));
      context, service, launched := next.context, next.service, next.launched;
      tick := tick + 1;
      outcome := result;
    }
  }
}
