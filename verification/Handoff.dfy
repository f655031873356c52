/** The update handoff: what installer/setup.iss and the PowerShell scripts it runs
    do to the Windows service and to the context file. */
module Handoff {
  import opened Text
  import opened Nssm

  const LogsDirectory: string := "C:\\ProgramData\\BackupDatabase\\logs"

  // ---- installer/restore_update_state.ps1 ----

  function DefaultValue(key: Key): string {
    match key
    case AppParameters => "--mode=server --minimized --run-as-service"
    case AppEnvironmentExtra => "SERVICE_MODE=server"
    case DisplayName => "Backup Database Service"
    case Description => "Servico de backup automatico para SQL Server, Sybase, PostgreSQL e Firebird"
    case Start => "SERVICE_AUTO_START"
    case AppStdout => LogsDirectory + "\\service_stdout.log"
    case AppStderr => LogsDirectory + "\\service_stderr.log"
    case AppExitDefault => "Restart"
    case AppExit77 => "Exit"
    case AppExit78 => "Exit"
    case AppRestartDelay => "60000"
    case AppNoConsole => "1"
    case ObjectName => "LocalSystem"
    case AppDirectory => ""
    case Other(_) => ""
  }

  /** `Get-ConfigValue`: a captured value, trimmed, or the default for a blank one. */
  function ConfigValue(config: map<Key, string>, key: Key): string {
    if key !in config || Trim(DotNet, config[key]) == "" then DefaultValue(key) else Trim(DotNet, config[key])
  }

  predicate AccountSupported(config: map<Key, string>) {
    var account := Fold(Trim(DotNet, ConfigValue(config, ObjectName)));
    account == "localsystem" || account == "system" || account == "nt authority\\system"
  }

  /** The settings in the order in which the restore writes them. */
  const SettingOrder: seq<Key> :=
    [AppParameters, AppDirectory, AppEnvironmentExtra, DisplayName, Description, Start, AppStdout, AppStderr,
     AppExitDefault, AppExit77, AppExit78, AppRestartDelay, AppNoConsole]

  function Setting(p: Params, config: map<Key, string>, key: Key): string {
    if key == AppDirectory then p.appDirectory else ConfigValue(config, key)
  }

  function SetAll(keys: seq<Key>, p: Params, config: map<Key, string>, rest: Script): Script {
    if keys == [] then rest
    else Then(SetValue(keys[0], Setting(p, config, keys[0]), false), SetAll(keys[1..], p, config, rest))
  }

  function EndScript(c: Context): Script {
    if Fold(c.origin) == "ui" then Then(Relaunch(c.relaunchArguments), Then(DeleteContext, Finished))
    else Then(DeleteContext, Finished)
  }

  function StartScript(p: Params, c: Context): Script {
    if !AccountSupported(c.serviceConfig) then Then(RejectAccount, Finished)
    else
      Then(SetValue(ObjectName, "LocalSystem", false),
      Then(StartService,
      if p.helperPresent then Then(ConfirmRunning, EndScript(c)) else EndScript(c)))
  }

  function RegisterScript(p: Params, c: Context): Script {
    Then(InstallService(p.appPath), SetAll(SettingOrder, p, c.serviceConfig, StartScript(p, c)))
  }

  function RestoreScript(p: Params, c: Context, found: bool): Script {
    if !c.serviceExists then EndScript(c)
    else
      Then(EnsureLogs,
      if found then Then(StopService, Then(RemoveService(true), RegisterScript(p, c))) else RegisterScript(p, c))
  }

  /** Old schema, blank target or expired: the context is discarded. */
  predicate IsStale(c: Context, now: int) {
    || (if c.schemaVersion.Some? then c.schemaVersion.value else 0) < 2
    || Trim(DotNet, c.targetVersion) == ""
    || c.expiresAt.None? || c.expiresAt.value < now
  }

  function Restore(h: Host, p: Params, now: int, replies: nat -> Reply, tick: nat): Run {
    match h.context
    case None => Run(h, Exit(0))
    case Some(Malformed) => Run(h, Exit(1))
    case Some(Parsed(c)) =>
      if IsStale(c, now) then Perform(Then(DeleteContext, Finished), h, p, replies, tick)
      else if c.serviceExists && !p.nssmPresent then Run(h, Exit(1))
      else Perform(RestoreScript(p, c, h.service.Some?), h, p, replies, tick)
  }

  lemma NextSetting(p: Params, config: map<Key, string>, rest: Script, i: nat)
    requires i < |SettingOrder|
    ensures SetAll(SettingOrder[i..], p, config, rest)
         == Then(SetValue(SettingOrder[i], Setting(p, config, SettingOrder[i]), false),
                 SetAll(SettingOrder[i + 1..], p, config, rest))
  {
    assert SettingOrder[i..][1..] == SettingOrder[i + 1..];
  }

  /** What is left of the configuration from the `i`th setting on. */
  function ConfigureFrom(i: nat, p: Params, config: map<Key, string>, rest: Script): Script
    requires i <= |SettingOrder|
  {
    SetAll(SettingOrder[i..], p, config, rest)
  }

  lemma ConfigureEnds(p: Params, config: map<Key, string>, rest: Script)
    ensures ConfigureFrom(0, p, config, rest) == SetAll(SettingOrder, p, config, rest)
    ensures ConfigureFrom(13, p, config, rest) == rest
  {
    assert SettingOrder[0..] == SettingOrder;
  }

  /** `Set-NssmValue`: the `i`th setting of the configuration. */
  method SetNssmValue(m: Machine, p: Params, key: Key, value: string, ghost config: map<Key, string>, ghost i: nat,
                      ghost rest: Script)
    returns (r: Outcome)
    requires i < |SettingOrder| && SettingOrder[i] == key && value == Setting(p, config, key)
    modifies m
    ensures m.tick >= old(m.tick)
    ensures Perform(ConfigureFrom(i, p, config, rest), old(m.Snapshot()), p, m.replies, old(m.tick))
         == if r.InProgress? then Perform(ConfigureFrom(i + 1, p, config, rest), m.Snapshot(), p, m.replies, m.tick)
            else Run(m.Snapshot(), r)
  {
    hide Perform, ConfigValue;
    NextSetting(p, config, rest, i);
    r := m.Issue(SetValue(key, value, false), p, ConfigureFrom(i + 1, p, config, rest));
  }

  /** What runs. */
  method ConfigureIdentity(m: Machine, p: Params, config: map<Key, string>, ghost rest: Script) returns (r: Outcome)
    modifies m
    ensures m.tick >= old(m.tick)
    ensures Perform(ConfigureFrom(0, p, config, rest), old(m.Snapshot()), p, m.replies, old(m.tick))
         == if r.InProgress? then Perform(ConfigureFrom(3, p, config, rest), m.Snapshot(), p, m.replies, m.tick)
            else Run(m.Snapshot(), r)
  {
    hide Perform, ConfigValue, ConfigureFrom;
    :- SetNssmValue(m, p, AppParameters, ConfigValue(config, AppParameters), config, 0, rest);
    :- SetNssmValue(m, p, AppDirectory, p.appDirectory, config, 1, rest);
    :- SetNssmValue(m, p, AppEnvironmentExtra, ConfigValue(config, AppEnvironmentExtra), config, 2, rest);
    r := InProgress;
  }

  /** How it is shown. */
  method ConfigureNames(m: Machine, p: Params, config: map<Key, string>, ghost rest: Script) returns (r: Outcome)
    modifies m
    ensures m.tick >= old(m.tick)
    ensures Perform(ConfigureFrom(3, p, config, rest), old(m.Snapshot()), p, m.replies, old(m.tick))
         == if r.InProgress? then Perform(ConfigureFrom(5, p, config, rest), m.Snapshot(), p, m.replies, m.tick)
            else Run(m.Snapshot(), r)
  {
    hide Perform, ConfigValue, ConfigureFrom;
    :- SetNssmValue(m, p, DisplayName, ConfigValue(config, DisplayName), config, 3, rest);
    :- SetNssmValue(m, p, Description, ConfigValue(config, Description), config, 4, rest);
    r := InProgress;
  }

  /** How it starts and where it logs. */
  method ConfigureLogging(m: Machine, p: Params, config: map<Key, string>, ghost rest: Script) returns (r: Outcome)
    modifies m
    ensures m.tick >= old(m.tick)
    ensures Perform(ConfigureFrom(5, p, config, rest), old(m.Snapshot()), p, m.replies, old(m.tick))
         == if r.InProgress? then Perform(ConfigureFrom(8, p, config, rest), m.Snapshot(), p, m.replies, m.tick)
            else Run(m.Snapshot(), r)
  {
    hide Perform, ConfigValue, ConfigureFrom;
    :- SetNssmValue(m, p, Start, ConfigValue(config, Start), config, 5, rest);
    :- SetNssmValue(m, p, AppStdout, ConfigValue(config, AppStdout), config, 6, rest);
    :- SetNssmValue(m, p, AppStderr, ConfigValue(config, AppStderr), config, 7, rest);
    r := InProgress;
  }

  /** What happens when it exits. */
  method ConfigureExits(m: Machine, p: Params, config: map<Key, string>, ghost rest: Script) returns (r: Outcome)
    modifies m
    ensures m.tick >= old(m.tick)
    ensures Perform(ConfigureFrom(8, p, config, rest), old(m.Snapshot()), p, m.replies, old(m.tick))
         == if r.InProgress? then Perform(ConfigureFrom(11, p, config, rest), m.Snapshot(), p, m.replies, m.tick)
            else Run(m.Snapshot(), r)
  {
    hide Perform, ConfigValue, ConfigureFrom;
    :- SetNssmValue(m, p, AppExitDefault, ConfigValue(config, AppExitDefault), config, 8, rest);
    :- SetNssmValue(m, p, AppExit77, ConfigValue(config, AppExit77), config, 9, rest);
    :- SetNssmValue(m, p, AppExit78, ConfigValue(config, AppExit78), config, 10, rest);
    r := InProgress;
  }

  /** How it is restarted, and that it has no console. */
  method ConfigureRestart(m: Machine, p: Params, config: map<Key, string>, ghost rest: Script) returns (r: Outcome)
    modifies m
    ensures m.tick >= old(m.tick)
    ensures Perform(ConfigureFrom(11, p, config, rest), old(m.Snapshot()), p, m.replies, old(m.tick))
         == if r.InProgress? then Perform(ConfigureFrom(13, p, config, rest), m.Snapshot(), p, m.replies, m.tick)
            else Run(m.Snapshot(), r)
  {
    hide Perform, ConfigValue, ConfigureFrom;
    :- SetNssmValue(m, p, AppRestartDelay, ConfigValue(config, AppRestartDelay), config, 11, rest);
    :- SetNssmValue(m, p, AppNoConsole, ConfigValue(config, AppNoConsole), config, 12, rest);
    r := InProgress;
  }

  /** The settings, one `nssm set` after the other. */
  method ConfigureService(m: Machine, p: Params, config: map<Key, string>, ghost rest: Script) returns (r: Outcome)
    modifies m
    ensures m.tick >= old(m.tick)
    ensures Perform(SetAll(SettingOrder, p, config, rest), old(m.Snapshot()), p, m.replies, old(m.tick))
         == if r.InProgress? then Perform(rest, m.Snapshot(), p, m.replies, m.tick) else Run(m.Snapshot(), r)
  {
    hide Perform, ConfigValue, ConfigureFrom, SetAll;
    ConfigureEnds(p, config, rest);
    :- ConfigureIdentity(m, p, config, rest);
    :- ConfigureNames(m, p, config, rest);
    :- ConfigureLogging(m, p, config, rest);
    :- ConfigureExits(m, p, config, rest);
    :- ConfigureRestart(m, p, config, rest);
    r := InProgress;
  }

  lemma AccountRejected(p: Params)
    ensures forall h: Host, reply: Reply :: !Execute(RejectAccount, h, p, reply).1.InProgress?
    ensures forall h: Host, reply: Reply :: !Execute(ReportMissingHelper, h, p, reply).1.InProgress?
  {
  }

  /** The part of the script that re-registers, configures and starts the service. */
  method RestoreService(m: Machine, p: Params, c: Context) returns (r: Outcome)
    requires c.serviceExists && p.nssmPresent
    modifies m
    ensures m.tick >= old(m.tick)
    ensures Perform(RestoreScript(p, c, old(m.service).Some?), old(m.Snapshot()), p, m.replies, old(m.tick))
         == if r.InProgress? then Perform(EndScript(c), m.Snapshot(), p, m.replies, m.tick) else Run(m.Snapshot(), r)
  {
    AccountRejected(p);
    hide Perform, Execute, ConfigValue, Fold, Trim, AccountSupported;
    var register := RegisterScript(p, c);
    var found := m.service.Some?;
    :- m.Issue(EnsureLogs, p, if found then Then(StopService, Then(RemoveService(true), register)) else register);
    if found {
      :- m.Issue(StopService, p, Then(RemoveService(true), register));
      :- m.Issue(RemoveService(true), p, register);
    }
    var start := StartScript(p, c);
    :- m.Issue(InstallService(p.appPath), p, SetAll(SettingOrder, p, c.serviceConfig, start));
    :- ConfigureService(m, p, c.serviceConfig, start);
    if !AccountSupported(c.serviceConfig) {
      :- m.Issue(RejectAccount, p, Finished);
    } else {
      var end := EndScript(c);
      var confirm := if p.helperPresent then Then(ConfirmRunning, end) else end;
      :- m.Issue(SetValue(ObjectName, "LocalSystem", false), p, Then(StartService, confirm));
      :- m.Issue(StartService, p, confirm);
      if p.helperPresent {
        :- m.Issue(ConfirmRunning, p, end);
      }
    }
    r := InProgress;
  }

  lemma AtTheEnd(p: Params, replies: nat -> Reply)
    ensures forall h: Host, tick: nat :: Perform(Finished, h, p, replies, tick) == Run(h, Exit(0))
  {
  }

  /** The script, command by command. */
  method RestoreUpdateState(m: Machine, p: Params, now: int) returns (r: Outcome)
    modifies m
    ensures Run(m.Snapshot(), r) == Restore(old(m.Snapshot()), p, now, m.replies, old(m.tick))
  {
    hide Perform, Execute, ConfigValue, Fold, Trim, AccountSupported, IsStale;
    if m.context.None? {
      return Exit(0);
    }
    if m.context.value.Malformed? {
      return Exit(1);
    }
    var c := m.context.value.context;
    AtTheEnd(p, m.replies);
    if IsStale(c, now) {
      :- m.Issue(DeleteContext, p, Finished);
      return Exit(0);
    }
    if c.serviceExists {
      if !p.nssmPresent {
        return Exit(1);
      }
      :- RestoreService(m, p, c);
    }
    if Fold(c.origin) == "ui" {
      :- m.Issue(Relaunch(c.relaunchArguments), p, Then(DeleteContext, Finished));
    }
    :- m.Issue(DeleteContext, p, Finished);
    return Exit(0);
  }

  // ---- installer/capture_update_context.ps1 ----

  const CapturedKeys: set<Key> :=
    {AppParameters, AppDirectory, AppEnvironmentExtra, ObjectName, DisplayName, Description, Start, AppStdout,
     AppStderr, AppRestartDelay, AppNoConsole, AppExitDefault, AppExit77, AppExit78}

  /** `Get-NssmValue`: the trimmed value, or nothing when the query fails (the key is
      not `readable`) or the value is blank. */
  function GetNssmValue(s: Service, readable: set<Key>, key: Key): Option<string> {
    if key !in readable || key !in s.config || Trim(DotNet, s.config[key]) == "" then None
    else Some(Trim(DotNet, s.config[key]))
  }

  /** The captured configuration; a key without a value is as good as absent. */
  function Captured(s: Service, readable: set<Key>): map<Key, string> {
    map k | k in CapturedKeys && GetNssmValue(s, readable, k).Some? :: GetNssmValue(s, readable, k).value
  }

  function WithService(c: Context, service: Option<Service>, readable: set<Key>): Context {
    c.(schemaVersion := Some(if c.schemaVersion.Some? then c.schemaVersion.value else 2),
       serviceExists := service.Some?,
       serviceConfig := if service.Some? then Captured(service.value, readable) else map[])
  }

  /** The configuration holds the trimmed value of every named setting that could be
      read and is not blank, and nothing else. */
  ghost predicate IsCaptureOf(config: map<Key, string>, s: Service, readable: set<Key>) {
    forall key ::
      && (key in config <==>
            !key.Other? && key in readable && key in s.config && Trim(DotNet, s.config[key]) != "")
      && (key in config ==> config[key] == Trim(DotNet, s.config[key]))
  }

  lemma CapturedKeysAreNamed(key: Key)
    ensures key in CapturedKeys <==> !key.Other?
  {
  }

  lemma CapturedIsCapture(s: Service, readable: set<Key>)
    ensures IsCaptureOf(Captured(s, readable), s, readable)
  {
    hide Trim, CapturedKeys;
    forall key
      ensures key in CapturedKeys <==> !key.Other?
    {
      CapturedKeysAreNamed(key);
    }
  }

  /** Rewrites the context with the state of the service. A context that does not
      parse ends the script before it writes, and so does a query that is not `quiet`
      but writes to its error stream. */
  method CaptureUpdateContext(m: Machine, readable: set<Key>, quiet: bool) returns (r: Outcome)
    modifies m`context
    ensures match old(m.context)
            case None => m.context == None && r == Exit(0)
            case Some(Malformed) => m.context == old(m.context) && r == Exit(1)
            case Some(Parsed(c)) =>
              if m.service.Some? && !quiet then m.context == old(m.context) && r == Exit(1)
              else m.context == Some(Parsed(WithService(c, m.service, readable))) && r == Exit(0)
    ensures r == Exit(0) && m.context.Some? ==>
              && m.context.value.Parsed? && old(m.context).Some? && old(m.context).value.Parsed?
              && var before, after := old(m.context).value.context, m.context.value.context;
                 && after.schemaVersion == Some(if before.schemaVersion.Some? then before.schemaVersion.value else 2)
                 && after.targetVersion == before.targetVersion && after.expiresAt == before.expiresAt
                 && after.origin == before.origin && after.relaunchArguments == before.relaunchArguments
                 && after.serviceExists == m.service.Some?
                 && (if m.service.Some? then IsCaptureOf(after.serviceConfig, m.service.value, readable)
                     else after.serviceConfig == map[])
  {
    if m.service.Some? {
      CapturedIsCapture(m.service.value, readable);
    }
    hide Captured, IsCaptureOf;
    if m.context.None? {
      return Exit(0);
    }
    if m.context.value.Malformed? {
      return Exit(1);
    }
    var c := m.context.value.context;
    var serviceConfig: map<Key, string> := map[];
    if m.service.Some? {
      if !quiet {
        return Exit(1);
      }
      serviceConfig := Captured(m.service.value, readable);
    }
    var version := 2;
    if c.schemaVersion.Some? {
      version := c.schemaVersion.value;
    }
    c := c.(schemaVersion := Some(version), serviceExists := m.service.Some?, serviceConfig := serviceConfig);
    m.context := Some(Parsed(c));
    return Exit(0);
  }

  // ---- installer/install_service.ps1 ----

  /** The registration commands; the ones marked optional only warn when they fail. */
  function InstallSettings(p: Params, logPath: string, rest: Script): Script {
    Then(SetValue(AppParameters, "--mode=server --minimized --run-as-service", false),
    Then(SetValue(AppDirectory, p.appDirectory, false),
    Then(SetValue(AppEnvironmentExtra, "SERVICE_MODE=server", false),
    Then(SetValue(DisplayName, "Backup Database Service", true),
    Then(SetValue(Description, "Servico de backup automatico para SQL Server, Sybase, PostgreSQL e Firebird", true),
    Then(SetValue(Start, "SERVICE_AUTO_START", true),
    Then(SetValue(AppNoConsole, "1", true),
    Then(SetValue(AppStdout, logPath + "\\service_stdout.log", false),
    Then(SetValue(AppStderr, logPath + "\\service_stderr.log", false),
    Then(SetValue(AppExitDefault, "Restart", true),
    Then(SetValue(AppExit77, "Exit", true),
    Then(SetValue(AppExit78, "Exit", true),
    Then(SetValue(AppRestartDelay, "60000", true),
    Then(SetValue(ObjectName, "LocalSystem", true), rest))))))))))))))
  }

  function StartInstalled(p: Params, start: bool): Script {
    if !start then Finished
    else if p.helperPresent then Then(StartAndPoll, Finished)
    else Then(ReportMissingHelper, Finished)
  }

  /** A default run: no service account is given. When a critical setting fails the
      script removes the service and exits with 1; the reply says what is left. */
  function InstallScript(p: Params, logPath: string, found: bool, start: bool): Script {
    var tail := Then(VerifyInstalled, StartInstalled(p, start));
    var register := Then(InstallService(p.appPath), InstallSettings(p, logPath, tail));
    if found then Then(RemoveService(false), register) else register
  }

  function Install(h: Host, p: Params, logPath: string, start: bool, replies: nat -> Reply, tick: nat): Run {
    if !p.nssmPresent || !p.appPresent then Run(h, Exit(1))
    else Perform(InstallScript(p, logPath, h.service.Some?, start), h, p, replies, tick)
  }

  /** The registration, command by command. */
  method RunInstallSettings(m: Machine, p: Params, logPath: string, ghost rest: Script) returns (r: Outcome)
    modifies m
    ensures m.tick >= old(m.tick)
    ensures Perform(InstallSettings(p, logPath, rest), old(m.Snapshot()), p, m.replies, old(m.tick))
         == if r.InProgress? then Perform(rest, m.Snapshot(), p, m.replies, m.tick) else Run(m.Snapshot(), r)
  {
    hide Perform, Execute;
    ghost var s := InstallSettings(p, logPath, rest);
    :- m.Issue(SetValue(AppParameters, "--mode=server --minimized --run-as-service", false), p, s.rest);
    s := s.rest;
    :- m.Issue(SetValue(AppDirectory, p.appDirectory, false), p, s.rest);
    s := s.rest;
    :- m.Issue(SetValue(AppEnvironmentExtra, "SERVICE_MODE=server", false), p, s.rest);
    s := s.rest;
    :- m.Issue(SetValue(DisplayName, "Backup Database Service", true), p, s.rest);
    s := s.rest;
    var description := "Servico de backup automatico para SQL Server, Sybase, PostgreSQL e Firebird";
    :- m.Issue(SetValue(Description, description, true), p, s.rest);
    s := s.rest;
    :- m.Issue(SetValue(Start, "SERVICE_AUTO_START", true), p, s.rest);
    s := s.rest;
    :- m.Issue(SetValue(AppNoConsole, "1", true), p, s.rest);
    s := s.rest;
    :- m.Issue(SetValue(AppStdout, logPath + "\\service_stdout.log", false), p, s.rest);
    s := s.rest;
    :- m.Issue(SetValue(AppStderr, logPath + "\\service_stderr.log", false), p, s.rest);
    s := s.rest;
    :- m.Issue(SetValue(AppExitDefault, "Restart", true), p, s.rest);
    s := s.rest;
    :- m.Issue(SetValue(AppExit77, "Exit", true), p, s.rest);
    s := s.rest;
    :- m.Issue(SetValue(AppExit78, "Exit", true), p, s.rest);
    s := s.rest;
    :- m.Issue(SetValue(AppRestartDelay, "60000", true), p, s.rest);
    s := s.rest;
    :- m.Issue(SetValue(ObjectName, "LocalSystem", true), p, s.rest);
    r := InProgress;
  }

  method RunInstallService(m: Machine, p: Params, logPath: string, start: bool) returns (r: Outcome)
    modifies m
    ensures m.tick >= old(m.tick)
    ensures Run(m.Snapshot(), r) == Install(old(m.Snapshot()), p, logPath, start, m.replies, old(m.tick))
  {
    hide Perform, Execute, InstallSettings;
    AtTheEnd(p, m.replies);
    AccountRejected(p);
    if !p.nssmPresent || !p.appPresent {
      return Exit(1);
    }
    var tail := Then(VerifyInstalled, StartInstalled(p, start));
    if m.service.Some? {
      :- m.Issue(RemoveService(false), p, Then(InstallService(p.appPath), InstallSettings(p, logPath, tail)));
    }
    :- m.Issue(InstallService(p.appPath), p, InstallSettings(p, logPath, tail));
    :- RunInstallSettings(m, p, logPath, tail);
    :- m.Issue(VerifyInstalled, p, StartInstalled(p, start));
    if start {
      if !p.helperPresent {
        :- m.Issue(ReportMissingHelper, p, Finished);
      } else {
        :- m.Issue(StartAndPoll, p, Finished);
      }
    }
    return Exit(0);
  }
}
