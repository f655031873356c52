/** What every run of the restore script keeps, and what a completed one reaches. */
module HandoffTheorems {
  import opened Text
  import opened Nssm
  import opened Handoff

  // ---- The restored service ----

  const NamedKeys: set<Key> :=
    {AppParameters, AppDirectory, AppEnvironmentExtra, DisplayName, Description, Start, AppStdout, AppStderr,
     AppExitDefault, AppExit77, AppExit78, AppRestartDelay, AppNoConsole, ObjectName}

  /** The record a restore is meant to produce, as a function of the context and the
      parameters alone. */
  function TargetConfig(p: Params, config: map<Key, string>): map<Key, string> {
    map k | k in p.initial.Keys + NamedKeys ::
      match k
      case Other(_) => p.initial[k]
      case AppDirectory => p.appDirectory
      case ObjectName => "LocalSystem"
      case _ => ConfigValue(config, k)
  }

  function TargetService(p: Params, config: map<Key, string>): Service {
    Service(p.appPath, TargetConfig(p, config), if p.helperPresent then Running else StartRequested)
  }

  // ---- What a failure does to a script ----

  /** The command finds what it needs: a service or none, a list it can pass on. */
  ghost predicate FindsItsService(c: Command, h: Host) {
    && (c.InstallService? ==> h.service.None?)
    && (c.SetValue? || c.StartService? ==> h.service.Some?)
    && (c.Relaunch? ==> c.arguments != [] && "" !in c.arguments)
  }

  /** The commands that only warn when they fail: the optional settings, the deletion of the
      context, and a stop or a removal that writes nothing to a redirected error stream. */
  ghost predicate OnlyWarns(c: Command, loud: bool) {
    || (c.SetValue? && c.optional) || c.DeleteContext?
    || (c.StopService? && !loud) || (c.RemoveService? && !(c.redirected && loud))
  }

  /** The commands whose failure leaves a service that is registered but not seen running,
      or whose account is not restored. */
  ghost predicate ExitsWithTwo(c: Command) {
    c.RejectAccount? || c.ConfirmRunning? || c.StartAndPoll?
  }

  /** A command that fails ends its script with 1, or with 2 if that is what it reports,
      unless it only warns. */
  lemma FailureEnds(c: Command, h: Host, p: Params, left: Option<Service>, loud: bool)
    requires FindsItsService(c, h) && !c.VerifyInstalled?
    ensures Execute(c, h, p, Fails(left, loud)).1
         == if OnlyWarns(c, loud) then InProgress else if ExitsWithTwo(c) then Exit(2) else Exit(1)
    ensures Execute(c, h, p, Fails(left, loud)).0.context == h.context
  {
  }

  /** A command that does not find what it needs ends its script with 1, an optional setting
      excepted; so does the check for a registered service. */
  lemma MissingEnds(c: Command, h: Host, p: Params, reply: Reply)
    requires !FindsItsService(c, h) || (c.VerifyInstalled? && h.service.None?)
    ensures !reply.Dies? ==>
              Execute(c, h, p, reply).1 == if c.SetValue? && c.optional then InProgress else Exit(1)
    ensures Execute(c, h, p, reply).0 == h
  {
  }

  /** The two commands that always end their script: the refusal of an account with 2, the
      missing polling helper with 1. */
  lemma RefusalEnds(c: Command, h: Host, p: Params, reply: Reply)
    requires !reply.Dies? && (c.RejectAccount? || c.ReportMissingHelper?)
    ensures Execute(c, h, p, reply) == (h, Exit(if c.RejectAccount? then 2 else 1))
  {
  }

  /** A script whose process dies goes no further; the context is gone only if it died
      while deleting it. */
  lemma DeathEnds(c: Command, h: Host, p: Params, left: Option<Service>, deleted: bool)
    requires FindsItsService(c, h)
    ensures Execute(c, h, p, Dies(left, deleted)).1 == Dead
    ensures Execute(c, h, p, Dies(left, deleted)).0.context == if c.DeleteContext? && deleted then None else h.context
  {
  }

  // ---- Scripts whose commands all matter ----

  /** No command whose failure is ignored, and nothing behind the deletion of the context. */
  predicate Strict(s: Script) {
    s.Finished? ||
    (!s.command.StopService? && !s.command.RemoveService? && !(s.command.SetValue? && s.command.optional)
     && (s.command.DeleteContext? ==> s.rest.Finished?) && Strict(s.rest))
  }

  /** The service after a strict script whose commands all succeed. */
  function Effect(s: Script, service: Option<Service>, p: Params): Option<Service> {
    match s
    case Finished => service
    case Then(c, rest) =>
      var after :=
        match c
        case InstallService(application) => Some(Service(application, p.initial, Stopped))
        case SetValue(k, v, _) =>
          if service.None? then None else Some(service.value.(config := service.value.config[k := v]))
        case RemoveService(_) => None
        case StopService => if service.None? then None else Some(service.value.(state := Stopped))
        case StartService => if service.None? then None else Some(service.value.(state := StartRequested))
        case ConfirmRunning | StartAndPoll => if service.None? then None else Some(service.value.(state := Running))
        case _ => service;
      Effect(rest, after, p)
  }

  /** A strict script that gets to its end, or to the deletion of the context, has
      had its whole effect; one that does not leaves the context alone. */
  lemma {:induction false} StrictRun(s: Script, h: Host, p: Params, replies: nat -> Reply, tick: nat)
    requires Strict(s)
    ensures var r := Perform(s, h, p, replies, tick);
            && (r.outcome == Exit(0) || r.host.context != h.context ==> r.host.service == Effect(s, h.service, p))
            && (r.host.context != h.context ==> r.host.context == None && (r.outcome == Exit(0) || r.outcome == Dead))
    decreases s
  {
    if s.Then? {
      var (next, outcome) := Execute(s.command, h, p, replies(tick));
      if outcome.InProgress? {
        StrictRun(s.rest, next, p, replies, tick + 1);
      }
    }
  }

  function Settings(keys: seq<Key>, p: Params, config: map<Key, string>): map<Key, string> {
    map k | k in keys :: Setting(p, config, k)
  }

  lemma SettingsStep(keys: seq<Key>, p: Params, config: map<Key, string>, m: map<Key, string>)
    requires keys != []
    ensures m[keys[0] := Setting(p, config, keys[0])] + Settings(keys[1..], p, config) == m + Settings(keys, p, config)
  {
    hide Setting;
    assert forall k :: k in keys <==> k == keys[0] || k in keys[1..];
  }

  lemma {:induction false} SetAllEffect(keys: seq<Key>, p: Params, config: map<Key, string>, rest: Script, s: Service)
    ensures Effect(SetAll(keys, p, config, rest), Some(s), p)
         == Effect(rest, Some(s.(config := s.config + Settings(keys, p, config))), p)
    decreases keys
  {
    hide Setting;
    if keys == [] {
      assert s.config + Settings([], p, config) == s.config;
    } else {
      var next := s.(config := s.config[keys[0] := Setting(p, config, keys[0])]);
      SetAllEffect(keys[1..], p, config, rest, next);
      SettingsStep(keys, p, config, s.config);
    }
  }

  lemma {:induction false} SetAllIsStrict(keys: seq<Key>, p: Params, config: map<Key, string>, rest: Script)
    requires Strict(rest)
    ensures Strict(SetAll(keys, p, config, rest))
  {
    if keys != [] {
      SetAllIsStrict(keys[1..], p, config, rest);
    }
  }

  lemma SettingOrderIsNamed(k: Key)
    ensures k in SettingOrder <==> !k.Other? && k != ObjectName
  {
    assert |SettingOrder| == 13;
    assert SettingOrder[0] == AppParameters && SettingOrder[1] == AppDirectory;
    assert SettingOrder[2] == AppEnvironmentExtra;
    assert SettingOrder[3] == DisplayName && SettingOrder[4] == Description && SettingOrder[5] == Start;
    assert SettingOrder[6] == AppStdout && SettingOrder[7] == AppStderr && SettingOrder[8] == AppExitDefault;
    assert SettingOrder[9] == AppExit77 && SettingOrder[10] == AppExit78 && SettingOrder[11] == AppRestartDelay;
    assert SettingOrder[12] == AppNoConsole;
    hide SettingOrder;
    if k in SettingOrder {
      var i :| 0 <= i < |SettingOrder| && SettingOrder[i] == k;
    }
  }

  lemma NamedIsNotOther(k: Key)
    ensures k in NamedKeys <==> !k.Other?
  {
  }

  lemma TargetAt(p: Params, config: map<Key, string>, k: Key)
    ensures k in TargetConfig(p, config) <==> k in p.initial || !k.Other?
    ensures k in TargetConfig(p, config) ==>
              TargetConfig(p, config)[k] == if k.Other? then p.initial[k] else if k == ObjectName then "LocalSystem"
                                            else Setting(p, config, k)
  {
    hide ConfigValue;
    NamedIsNotOther(k);
    hide NamedKeys;
  }

  lemma SettingsReachTarget(p: Params, config: map<Key, string>, order: seq<Key>)
    requires forall k :: k in order <==> !k.Other? && k != ObjectName
    ensures (p.initial + Settings(order, p, config))[ObjectName := "LocalSystem"] == TargetConfig(p, config)
  {
    hide Setting, TargetConfig;
    var a, b := (p.initial + Settings(order, p, config))[ObjectName := "LocalSystem"], TargetConfig(p, config);
    forall k
      ensures k in a <==> k in b
      ensures k in a ==> a[k] == b[k]
    {
      TargetAt(p, config, k);
    }
  }

  /** The script that only deletes the context. */
  lemma DeletionAlone()
    ensures Strict(Then(DeleteContext, Finished))
  {
    assert Strict(Finished);
  }

  lemma EndEffect(p: Params, c: Context, s: Option<Service>)
    ensures Effect(EndScript(c), s, p) == s && Strict(EndScript(c))
  {
    hide Fold;
    DeletionAlone();
    assert Effect(Then(DeleteContext, Finished), s, p) == s;
  }

  lemma StartEffect(p: Params, c: Context, s: Service)
    requires AccountSupported(c.serviceConfig)
    ensures Strict(StartScript(p, c))
    ensures Effect(StartScript(p, c), Some(s), p)
         == Some(Service(s.application, s.config[ObjectName := "LocalSystem"],
                         if p.helperPresent then Running else StartRequested))
  {
    hide AccountSupported, EndScript;
    var account := s.(config := s.config[ObjectName := "LocalSystem"]);
    var end := EndScript(c);
    EndEffect(p, c, Some(account.(state := StartRequested)));
    EndEffect(p, c, Some(account.(state := Running)));
    var confirm := if p.helperPresent then Then(ConfirmRunning, end) else end;
    assert Effect(confirm, Some(account.(state := StartRequested)), p)
        == Some(account.(state := if p.helperPresent then Running else StartRequested));
    assert Strict(confirm) && Strict(Then(StartService, confirm));
    assert StartScript(p, c) == Then(SetValue(ObjectName, "LocalSystem", false), Then(StartService, confirm));
    assert Effect(Then(StartService, confirm), Some(account), p)
        == Effect(confirm, Some(account.(state := StartRequested)), p);
  }

  /** Registering from scratch gives the target, whatever record was there before. */
  lemma RegisterEffect(p: Params, c: Context, any: Option<Service>)
    requires AccountSupported(c.serviceConfig)
    ensures Strict(RegisterScript(p, c))
    ensures Effect(RegisterScript(p, c), any, p) == Some(TargetService(p, c.serviceConfig))
  {
    hide AccountSupported, ConfigValue, EndScript, TargetConfig, Settings, Setting;
    var created := Service(p.appPath, p.initial, Stopped);
    SetAllEffect(SettingOrder, p, c.serviceConfig, StartScript(p, c), created);
    forall k
      ensures k in SettingOrder <==> !k.Other? && k != ObjectName
    {
      SettingOrderIsNamed(k);
    }
    SettingsReachTarget(p, c.serviceConfig, SettingOrder);
    var s := created.(config := p.initial + Settings(SettingOrder, p, c.serviceConfig));
    StartEffect(p, c, s);
    SetAllIsStrict(SettingOrder, p, c.serviceConfig, StartScript(p, c));
  }

  /** A command that is refused whatever the system answers. */
  predicate IsRefused(c: Command) {
    c.RejectAccount? || (c.Relaunch? && !Launchable(c.arguments))
  }

  /** A script that runs into a refusal before it deletes the context. */
  predicate Rejects(s: Script) {
    s.Then? && !s.command.DeleteContext? && (IsRefused(s.command) || Rejects(s.rest))
  }

  lemma {:induction false} RejectedRun(s: Script, h: Host, p: Params, replies: nat -> Reply, tick: nat)
    requires Rejects(s)
    ensures Perform(s, h, p, replies, tick).outcome != Exit(0)
    ensures Perform(s, h, p, replies, tick).host.context == h.context
    decreases s
  {
    var (next, outcome) := Execute(s.command, h, p, replies(tick));
    if outcome.InProgress? {
      RejectedRun(s.rest, next, p, replies, tick + 1);
    }
  }

  lemma {:induction false} SetAllRejects(keys: seq<Key>, p: Params, config: map<Key, string>, rest: Script)
    requires Rejects(rest)
    ensures Rejects(SetAll(keys, p, config, rest))
  {
    if keys != [] {
      SetAllRejects(keys[1..], p, config, rest);
    }
  }

  /** A run of the registering part: at its end, or once the context is gone, the
      service is the target; otherwise the context is still there. */
  lemma RegisterRun(p: Params, c: Context, h: Host, replies: nat -> Reply, tick: nat)
    ensures var r := Perform(RegisterScript(p, c), h, p, replies, tick);
            && (r.outcome == Exit(0) || r.host.context != h.context ==>
                  AccountSupported(c.serviceConfig) && r.host.service == Some(TargetService(p, c.serviceConfig)))
            && (r.host.context != h.context ==> r.host.context == None && (r.outcome == Exit(0) || r.outcome == Dead))
  {
    hide AccountSupported, TargetService, Effect, SetAll;
    if AccountSupported(c.serviceConfig) {
      RegisterEffect(p, c, h.service);
      StrictRun(RegisterScript(p, c), h, p, replies, tick);
    } else {
      assert Rejects(StartScript(p, c));
      SetAllRejects(SettingOrder, p, c.serviceConfig, StartScript(p, c));
      RejectedRun(RegisterScript(p, c), h, p, replies, tick);
    }
  }

  // ---- Every run of the restore script ----

  /** The commands in front of the registration never touch the context, and what
      they leave of the old record does not show in the result. */
  lemma ServiceRun(p: Params, c: Context, h: Host, replies: nat -> Reply, tick: nat)
    requires c.serviceExists
    ensures var r := Perform(RestoreScript(p, c, h.service.Some?), h, p, replies, tick);
            && (r.outcome == Exit(0) || r.host.context != h.context ==>
                  AccountSupported(c.serviceConfig) && r.host.service == Some(TargetService(p, c.serviceConfig)))
            && (r.host.context != h.context ==> r.host.context == None && (r.outcome == Exit(0) || r.outcome == Dead))
  {
    hide RegisterScript, TargetService, AccountSupported;
    var register := RegisterScript(p, c);
    var (h1, o1) := Execute(EnsureLogs, h, p, replies(tick));
    if o1.InProgress? {
      if h.service.Some? {
        var (h2, o2) := Execute(StopService, h1, p, replies(tick + 1));
        assert Perform(Then(StopService, Then(RemoveService(true), register)), h1, p, replies, tick + 1)
            == if o2.InProgress? then Perform(Then(RemoveService(true), register), h2, p, replies, tick + 2)
               else Run(h2, o2);
        if o2.InProgress? {
          var (h3, o3) := Execute(RemoveService(true), h2, p, replies(tick + 2));
          if o3.InProgress? {
            RegisterRun(p, c, h3, replies, tick + 3);
          }
        }
      } else {
        RegisterRun(p, c, h1, replies, tick + 1);
      }
    }
  }

  /** With no captured service the script never touches the service. */
  predicate LeavesService(s: Script) {
    s.Finished? || ((s.command.Relaunch? || s.command.DeleteContext?) && LeavesService(s.rest))
  }

  lemma {:induction false} ServiceUntouched(s: Script, h: Host, p: Params, replies: nat -> Reply, tick: nat)
    requires LeavesService(s)
    ensures Perform(s, h, p, replies, tick).host.service == h.service
    decreases s
  {
    if s.Then? {
      var (next, outcome) := Execute(s.command, h, p, replies(tick));
      if outcome.InProgress? {
        ServiceUntouched(s.rest, next, p, replies, tick + 1);
      }
    }
  }

  lemma DeletionLeavesService()
    ensures LeavesService(Then(DeleteContext, Finished))
  {
    assert LeavesService(Finished);
  }

  lemma EndLeavesService(c: Context)
    ensures LeavesService(EndScript(c))
  {
    hide Fold;
    DeletionLeavesService();
  }

  /** The three kinds of context, for every sequence of failures and every crash. */
  lemma RestoreRun(h: Host, p: Params, now: int, replies: nat -> Reply, tick: nat, c: Context)
    requires h.context == Some(Parsed(c))
    ensures var r := Restore(h, p, now, replies, tick);
            && (r.host.context != h.context ==> r.host.context == None && (r.outcome == Exit(0) || r.outcome == Dead))
            && (IsStale(c, now) || !c.serviceExists ==> r.host.service == h.service)
            && (!IsStale(c, now) && c.serviceExists && (r.outcome == Exit(0) || r.host.context != h.context) ==>
                  && p.nssmPresent && AccountSupported(c.serviceConfig)
                  && r.host.service == Some(TargetService(p, c.serviceConfig)))
  {
    hide IsStale, TargetService, AccountSupported, EndScript;
    DeletionAlone();
    DeletionLeavesService();
    EndLeavesService(c);
    EndEffect(p, c, h.service);
    var last := Then(DeleteContext, Finished);
    if IsStale(c, now) {
      StrictRun(last, h, p, replies, tick);
      ServiceUntouched(last, h, p, replies, tick);
    } else if c.serviceExists {
      ServiceRun(p, c, h, replies, tick);
    } else {
      StrictRun(EndScript(c), h, p, replies, tick);
      ServiceUntouched(EndScript(c), h, p, replies, tick);
    }
  }

  /** Handoff safety: the context file is deleted only when it is stale, and then the
      service is untouched, or once a captured service is registered anew as
      LocalSystem and started, with RUNNING seen if the polling helper is there. */
  lemma ContextDeletionIsSafe(h: Host, p: Params, now: int, replies: nat -> Reply, tick: nat, c: Context)
    requires h.context == Some(Parsed(c))
    requires Restore(h, p, now, replies, tick).host.context == None
    ensures var s := Restore(h, p, now, replies, tick).host.service;
            || (IsStale(c, now) && s == h.service)
            || (!c.serviceExists && s == h.service)
            || (c.serviceExists && s.Some? && s.value.application == p.appPath
                && ObjectName in s.value.config && s.value.config[ObjectName] == "LocalSystem"
                && s.value.state == if p.helperPresent then Running else StartRequested)
  {
    hide IsStale, AccountSupported, Restore, ConfigValue;
    RestoreRun(h, p, now, replies, tick, c);
    TargetAt(p, c.serviceConfig, ObjectName);
  }

  /** Every exit with 1 or 2 leaves the context file in place, whatever it holds. */
  lemma FailureKeepsContext(h: Host, p: Params, now: int, replies: nat -> Reply, tick: nat)
    requires Restore(h, p, now, replies, tick).outcome != Exit(0) && Restore(h, p, now, replies, tick).outcome != Dead
    ensures Restore(h, p, now, replies, tick).host.context == h.context
  {
    if h.context.Some? && h.context.value.Parsed? {
      RestoreRun(h, p, now, replies, tick, h.context.value.context);
    }
  }

  // ---- Crash recovery ----

  /** One start of the restore script: its clock and the system's answers. */
  datatype Attempt = Attempt(now: int, replies: nat -> Reply)

  function AfterAttempts(h: Host, p: Params, attempts: seq<Attempt>): Host
    decreases attempts
  {
    if attempts == [] then h
    else AfterAttempts(Restore(h, p, attempts[0].now, attempts[0].replies, 0).host, p, attempts[1..])
  }

  /** The attempts run one after the other. */
  lemma {:induction false} AttemptsInOrder(h: Host, p: Params, first: seq<Attempt>, last: Attempt)
    ensures AfterAttempts(h, p, first + [last])
         == Restore(AfterAttempts(h, p, first), p, last.now, last.replies, 0).host
    decreases first
  {
    hide Restore;
    var all := first + [last];
    if first == [] {
      assert all[0] == last && all[1..] == [];
    } else {
      assert all[0] == first[0] && all[1..] == first[1..] + [last];
      AttemptsInOrder(Restore(h, p, first[0].now, first[0].replies, 0).host, p, first[1..], last);
    }
  }

  lemma {:induction false} NoContextNoRun(h: Host, p: Params, attempts: seq<Attempt>)
    requires h.context == None
    ensures AfterAttempts(h, p, attempts) == h
    decreases attempts
  {
    if attempts != [] {
      NoContextNoRun(h, p, attempts[1..]);
    }
  }

  lemma {:induction false} AttemptsKeepService(h: Host, p: Params, attempts: seq<Attempt>, c: Context)
    requires h.context == Some(Parsed(c)) && !c.serviceExists
    requires AfterAttempts(h, p, attempts).context == h.context
    ensures AfterAttempts(h, p, attempts).service == h.service
    decreases attempts
  {
    hide Restore;
    if attempts != [] {
      RestoreRun(h, p, attempts[0].now, attempts[0].replies, 0, c);
      var next := Restore(h, p, attempts[0].now, attempts[0].replies, 0).host;
      if next.context == None {
        NoContextNoRun(next, p, attempts[1..]);
      } else {
        AttemptsKeepService(next, p, attempts[1..], c);
      }
    }
  }

  /** Crash recovery: after any number of runs cut before they deleted the context,
      by failing commands that leave any record behind or by the process dying, a
      completed run ends with the service record and run state of a run that was
      never interrupted. */
  lemma CrashRecovery(h: Host, p: Params, c: Context, cuts: seq<Attempt>, last: Attempt, direct: Attempt)
    requires h.context == Some(Parsed(c)) && !IsStale(c, last.now) && !IsStale(c, direct.now)
    requires AfterAttempts(h, p, cuts).context == h.context
    requires Restore(AfterAttempts(h, p, cuts), p, last.now, last.replies, 0).outcome == Exit(0)
    requires Restore(h, p, direct.now, direct.replies, 0).outcome == Exit(0)
    ensures Restore(AfterAttempts(h, p, cuts), p, last.now, last.replies, 0).host.service
         == Restore(h, p, direct.now, direct.replies, 0).host.service
  {
    hide Restore, IsStale, AfterAttempts, TargetService, AccountSupported;
    RestoreRun(AfterAttempts(h, p, cuts), p, last.now, last.replies, 0, c);
    RestoreRun(h, p, direct.now, direct.replies, 0, c);
    if !c.serviceExists {
      AttemptsKeepService(h, p, cuts, c);
    }
  }

  // ---- Runs in which nothing fails ----

  ghost predicate NothingFails(replies: nat -> Reply) {
    forall n: nat :: replies(n) == Succeeds
  }

  /** Such a system exists. */
  lemma AllSucceed()
    ensures NothingFails((n: nat) => Succeeds)
  {
  }

  /** Every command finds what it needs: a service, or none for the registration. */
  predicate Runnable(s: Script, installed: bool) {
    match s
    case Finished => true
    case Then(c, rest) =>
      match c
      case InstallService(_) => !installed && Runnable(rest, true)
      case RemoveService(_) => Runnable(rest, false)
      case SetValue(_, _, _) => installed && Runnable(rest, installed)
      case StartService => installed && Runnable(rest, installed)
      case VerifyInstalled => installed && Runnable(rest, installed)
      case RejectAccount => false
      case Relaunch(arguments) => Launchable(arguments) && Runnable(rest, installed)
      case ReportMissingHelper => rest.Finished?
      case _ => Runnable(rest, installed)
  }

  predicate Deletes(s: Script) {
    s.Then? && (s.command.DeleteContext? || Deletes(s.rest))
  }

  /** The script ends by reporting that it cannot poll. */
  predicate Reports(s: Script) {
    s.Then? && (s.command.ReportMissingHelper? || Reports(s.rest))
  }

  lemma {:induction false} SmoothRun(s: Script, h: Host, p: Params, replies: nat -> Reply, tick: nat)
    requires NothingFails(replies) && Runnable(s, h.service.Some?)
    ensures var r := Perform(s, h, p, replies, tick);
            && r.outcome == Exit(if Reports(s) then 1 else 0) && r.host.service == Effect(s, h.service, p)
            && r.host.context == if Deletes(s) then None else h.context
    decreases s
  {
    if s.Then? {
      assert replies(tick) == Succeeds;
      var (next, outcome) := Execute(s.command, h, p, Succeeds);
      SmoothRun(s.rest, next, p, replies, tick + 1);
    }
  }

  lemma DeletionRuns()
    ensures var last := Then(DeleteContext, Finished);
            Runnable(last, true) && Runnable(last, false) && Deletes(last) && !Reports(last)
  {
    assert Runnable(Finished, true) && Runnable(Finished, false) && !Reports(Finished);
  }

  lemma {:induction false} SetAllIsRunnable(keys: seq<Key>, p: Params, config: map<Key, string>, rest: Script)
    requires Runnable(rest, true) && Deletes(rest) && !Reports(rest)
    ensures Runnable(SetAll(keys, p, config, rest), true)
    ensures Deletes(SetAll(keys, p, config, rest)) && !Reports(SetAll(keys, p, config, rest))
  {
    if keys != [] {
      SetAllIsRunnable(keys[1..], p, config, rest);
    }
  }

  /** The relaunch that the context asks for, if any, can be carried out. */
  predicate CanRelaunch(c: Context) {
    Fold(c.origin) == "ui" ==> Launchable(c.relaunchArguments)
  }

  lemma RestoreIsRunnable(p: Params, c: Context, found: bool)
    requires (c.serviceExists ==> AccountSupported(c.serviceConfig)) && CanRelaunch(c)
    ensures Runnable(RestoreScript(p, c, found), found)
    ensures Deletes(RestoreScript(p, c, found)) && !Reports(RestoreScript(p, c, found))
  {
    hide AccountSupported, Fold, SetAll;
    DeletionRuns();
    var end := EndScript(c);
    assert Runnable(end, true) && Runnable(end, false) && Deletes(end) && !Reports(end);
    if c.serviceExists {
      var confirm := if p.helperPresent then Then(ConfirmRunning, end) else end;
      var launch := Then(StartService, confirm);
      assert Runnable(launch, true) && Deletes(launch) && !Reports(launch);
      assert StartScript(p, c) == Then(SetValue(ObjectName, "LocalSystem", false), launch);
      SetAllIsRunnable(SettingOrder, p, c.serviceConfig, StartScript(p, c));
      var register := RegisterScript(p, c);
      assert Runnable(register, false) && Deletes(register) && !Reports(register);
      var replace := Then(RemoveService(true), register);
      assert Runnable(replace, true) && Deletes(replace) && !Reports(replace);
    }
  }

  lemma RestoreRejects(p: Params, c: Context, found: bool)
    requires !CanRelaunch(c)
    ensures Rejects(RestoreScript(p, c, found))
  {
    hide AccountSupported, Fold, SetAll, Launchable;
    var end := EndScript(c);
    assert Rejects(end);
    if c.serviceExists {
      var confirm := if p.helperPresent then Then(ConfirmRunning, end) else end;
      assert Rejects(confirm) && Rejects(Then(StartService, confirm));
      assert Rejects(StartScript(p, c));
      SetAllRejects(SettingOrder, p, c.serviceConfig, StartScript(p, c));
      var register := RegisterScript(p, c);
      assert Rejects(register) && Rejects(Then(RemoveService(true), register));
    }
  }

  /** When nothing fails a restore completes: it exits with 0 and the context is gone,
      unless the captured account is one it does not restore, or the program is to be
      relaunched without arguments or with an empty one. */
  lemma SmoothRestoreCompletes(h: Host, p: Params, now: int, replies: nat -> Reply, c: Context)
    requires h.context == Some(Parsed(c)) && NothingFails(replies) && p.nssmPresent
    ensures var r := Restore(h, p, now, replies, 0);
            r.outcome == Exit(0) && r.host.context == None
            <==> IsStale(c, now) || ((c.serviceExists ==> AccountSupported(c.serviceConfig)) && CanRelaunch(c))
  {
    hide IsStale, AccountSupported, RestoreScript, Perform, NothingFails, CanRelaunch;
    RestoreRun(h, p, now, replies, 0, c);
    if IsStale(c, now) {
      DeletionRuns();
      SmoothRun(Then(DeleteContext, Finished), h, p, replies, 0);
    } else if !CanRelaunch(c) {
      RestoreRejects(p, c, h.service.Some?);
      RejectedRun(RestoreScript(p, c, h.service.Some?), h, p, replies, 0);
    } else if c.serviceExists ==> AccountSupported(c.serviceConfig) {
      RestoreIsRunnable(p, c, h.service.Some?);
      SmoothRun(RestoreScript(p, c, h.service.Some?), h, p, replies, 0);
    }
  }

  lemma UiIsUi()
    ensures Fold("ui") == "ui"
  {
  }

  /** A program that was started from its interface without arguments is not relaunched:
      however the system answers, the restore does not complete, and the context stays. */
  lemma RelaunchNeedsArguments(h: Host, p: Params, now: int, replies: nat -> Reply, tick: nat, c: Context)
    requires h.context == Some(Parsed(c)) && !IsStale(c, now)
    requires c.origin == "ui" && c.relaunchArguments == []
    ensures var r := Restore(h, p, now, replies, tick);
            r.outcome != Exit(0) && r.host.context == h.context
  {
    UiIsUi();
    hide IsStale, RestoreScript, Perform, Fold;
    RestoreRejects(p, c, h.service.Some?);
    if !(c.serviceExists && !p.nssmPresent) {
      RejectedRun(RestoreScript(p, c, h.service.Some?), h, p, replies, tick);
    }
  }

  // ---- The relaunch ----

  /** The relaunches of a script, in order. */
  function Launches(s: Script): seq<seq<string>> {
    if s.Finished? then []
    else (if s.command.Relaunch? then [s.command.arguments] else []) + Launches(s.rest)
  }

  lemma {:induction false} LaunchedRun(s: Script, h: Host, p: Params, replies: nat -> Reply, tick: nat)
    ensures var r := Perform(s, h, p, replies, tick);
            && (r.outcome == Exit(0) ==> r.host.launched == h.launched + Launches(s))
            && (Launches(s) == [] ==> r.host.launched == h.launched)
    decreases s
  {
    if s.Then? {
      var (next, outcome) := Execute(s.command, h, p, replies(tick));
      assert h.launched + [] == h.launched;
      if outcome.InProgress? {
        LaunchedRun(s.rest, next, p, replies, tick + 1);
        var first := if s.command.Relaunch? then [s.command.arguments] else [];
        Regroup(h.launched, first, Launches(s.rest));
      }
    } else {
      assert h.launched + [] == h.launched;
    }
  }

  lemma {:induction false} SetAllLaunches(keys: seq<Key>, p: Params, config: map<Key, string>, rest: Script)
    ensures Launches(SetAll(keys, p, config, rest)) == Launches(rest)
  {
    if keys != [] {
      SetAllLaunches(keys[1..], p, config, rest);
    }
  }

  lemma EndLaunches(c: Context)
    ensures Launches(EndScript(c)) == if Fold(c.origin) == "ui" then [c.relaunchArguments] else []
  {
    hide Fold;
    assert Launches(Finished) == [];
    assert Launches(Then(DeleteContext, Finished)) == [];
  }

  lemma RestoreLaunches(p: Params, c: Context, found: bool)
    requires c.serviceExists ==> AccountSupported(c.serviceConfig)
    ensures Launches(RestoreScript(p, c, found)) == if Fold(c.origin) == "ui" then [c.relaunchArguments] else []
  {
    hide AccountSupported, Fold, SetAll, EndScript;
    EndLaunches(c);
    if c.serviceExists {
      var end := EndScript(c);
      var confirm := if p.helperPresent then Then(ConfirmRunning, end) else end;
      assert Launches(confirm) == Launches(end);
      assert Launches(Then(StartService, confirm)) == Launches(end);
      assert Launches(StartScript(p, c)) == Launches(end);
      SetAllLaunches(SettingOrder, p, c.serviceConfig, StartScript(p, c));
      var register := RegisterScript(p, c);
      assert Launches(register) == Launches(end) && Launches(Then(RemoveService(true), register)) == Launches(end);
    }
  }

  // ---- The restore in the fields of the context ----

  lemma TrimIsIdempotent(s: string)
    ensures Trim(DotNet, Trim(DotNet, s)) == Trim(DotNet, s)
  {
    hide IsSpace;
    var a, b := TrimBounds(DotNet, s);
    var t := s[a..b];
    TrimUnique(DotNet, t, 0, |t|);
    assert t[0..|t|] == t;
  }

  ghost predicate IsVisible(s: string) {
    exists i :: 0 <= i < |s| && !IsSpace(DotNet, s[i])
  }

  lemma TrimOfVisible(s: string)
    ensures Trim(DotNet, s) != "" <==> IsVisible(s)
  {
    hide IsSpace, Trim;
    var a, b := TrimBounds(DotNet, s);
  }

  /** A context of the second schema or a later one, for a named version, that has not
      expired. */
  ghost predicate IsFresh(c: Context, now: int) {
    && c.schemaVersion.Some? && c.schemaVersion.value >= 2
    && IsVisible(c.targetVersion)
    && c.expiresAt.Some? && now <= c.expiresAt.value
  }

  lemma FreshIsNotStale(c: Context, now: int)
    ensures IsFresh(c, now) <==> !IsStale(c, now)
  {
    hide Trim, IsVisible;
    TrimOfVisible(c.targetVersion);
  }

  /** The accounts that stand for the local system, whatever their case. */
  ghost predicate IsLocalSystem(account: string) {
    Fold(account) == "localsystem" || Fold(account) == "system" || Fold(account) == "nt authority\\system"
  }

  /** No account was captured, or one of the local system's. */
  ghost predicate HasLocalSystem(config: map<Key, string>) {
    || ObjectName !in config || !IsVisible(config[ObjectName])
    || exists a: nat, b: nat :: TrimmedAt(DotNet, config[ObjectName], a, b) && IsLocalSystem(config[ObjectName][a..b])
  }

  lemma TightText(s: string)
    requires s != "" && !IsSpace(DotNet, s[0]) && !IsSpace(DotNet, s[|s| - 1])
    ensures Trim(DotNet, s) == s
  {
    hide IsSpace;
    TrimUnique(DotNet, s, 0, |s|);
    assert s[0..|s|] == s;
  }

  lemma DefaultAccount()
    ensures Trim(DotNet, DefaultValue(ObjectName)) == "LocalSystem" && Fold("LocalSystem") == "localsystem"
  {
    hide Trim;
    TightText("LocalSystem");
    hide IsSpace;
  }

  lemma LocalSystemIsSupported(config: map<Key, string>)
    ensures AccountSupported(config) <==> HasLocalSystem(config)
  {
    hide Fold, IsVisible, IsSpace, Trim;
    DefaultAccount();
    if ObjectName in config && IsVisible(config[ObjectName]) {
      var account := config[ObjectName];
      TrimOfVisible(account);
      TrimIsIdempotent(account);
      var a, b := TrimBounds(DotNet, account);
      forall x: nat, y: nat | TrimmedAt(DotNet, account, x, y)
        ensures account[x..y] == Trim(DotNet, account)
      {
        TrimUnique(DotNet, account, x, y);
      }
    } else if ObjectName in config {
      TrimOfVisible(config[ObjectName]);
    }
  }

  /** What a restore sets: the value of the context without the white space around it, or
      the default when the context has none or a blank one. */
  lemma RestoredSetting(p: Params, config: map<Key, string>, key: Key, a: nat, b: nat)
    requires !key.Other? && key != AppDirectory && key != ObjectName
    requires key in config ==> TrimmedAt(DotNet, config[key], a, b)
    ensures key in TargetConfig(p, config)
    ensures TargetConfig(p, config)[key]
         == if key in config && IsVisible(config[key]) then config[key][a..b] else DefaultValue(key)
  {
    TargetAt(p, config, key);
    hide TargetConfig, DefaultValue, IsVisible, IsSpace, Trim;
    if key in config {
      TrimOfVisible(config[key]);
      TrimUnique(DotNet, config[key], a, b);
    }
  }

  /** A fresh context of a supported account is restored when nothing fails: the service
      is the target, the program is relaunched with its arguments if it was started from
      its interface, and the context is gone. */
  lemma FreshContextIsRestored(h: Host, p: Params, now: int, replies: nat -> Reply, c: Context)
    requires h.context == Some(Parsed(c)) && IsFresh(c, now) && NothingFails(replies) && p.nssmPresent
    requires c.serviceExists && HasLocalSystem(c.serviceConfig)
    requires Fold(c.origin) == "ui" ==>
               c.relaunchArguments != []
               && forall i :: 0 <= i < |c.relaunchArguments| ==> c.relaunchArguments[i] != ""
    ensures var r := Restore(h, p, now, replies, 0);
            && r.outcome == Exit(0) && r.host.context == None
            && r.host.service == Some(TargetService(p, c.serviceConfig))
            && r.host.launched == h.launched + (if Fold(c.origin) == "ui" then [c.relaunchArguments] else [])
  {
    hide IsFresh, IsStale, HasLocalSystem, AccountSupported, RestoreScript, Perform, NothingFails, TargetService, Fold;
    FreshIsNotStale(c, now);
    LocalSystemIsSupported(c.serviceConfig);
    SmoothRestoreCompletes(h, p, now, replies, c);
    RestoreRun(h, p, now, replies, 0, c);
    RestoreLaunches(p, c, h.service.Some?);
    LaunchedRun(RestoreScript(p, c, h.service.Some?), h, p, replies, 0);
  }

  /** A context of an old schema or none, of no version, without an expiry or expired is
      discarded: it is deleted if the system lets it, and nothing else happens. */
  lemma StaleContextIsDiscarded(h: Host, p: Params, now: int, replies: nat -> Reply, tick: nat, c: Context)
    requires h.context == Some(Parsed(c))
    requires c.schemaVersion.None? || c.schemaVersion.value < 2 || !IsVisible(c.targetVersion)
             || c.expiresAt.None? || c.expiresAt.value < now
    ensures var r := Restore(h, p, now, replies, tick);
            && r.host.service == h.service && r.host.launched == h.launched
            && (r.outcome == Exit(0) || r.outcome == Dead)
            && (replies(tick) == Succeeds ==> r.outcome == Exit(0) && r.host.context == None)
  {
    FreshIsNotStale(c, now);
    hide IsStale, IsVisible, RestoreScript;
    var (next, outcome) := Execute(DeleteContext, h, p, replies(tick));
    assert Perform(Then(DeleteContext, Finished), h, p, replies, tick)
        == if outcome.InProgress? then Perform(Finished, next, p, replies, tick + 1) else Run(next, outcome);
  }

  // ---- The configuration across an update ----

  /** The value a setting has after an update: the captured one unless it was blank
      or could not be read, in which case the default. */
  function Survived(s: Service, readable: set<Key>, key: Key): string {
    if key in readable && key in s.config && Trim(DotNet, s.config[key]) != "" then Trim(DotNet, s.config[key])
    else DefaultValue(key)
  }

  lemma CapturedValue(s: Service, readable: set<Key>, key: Key)
    requires !key.Other?
    ensures ConfigValue(Captured(s, readable), key) == Survived(s, readable, key)
  {
    hide Trim, DefaultValue;
    assert key in CapturedKeys;
    if key in s.config {
      TrimIsIdempotent(s.config[key]);
    }
  }

  /** What a completed restore makes of a setting: the directory and the account are
      the installer's, every other named setting is the captured one. */
  function Expected(s: Service, readable: set<Key>, p: Params, key: Key): string {
    if key == AppDirectory then p.appDirectory
    else if key == ObjectName then "LocalSystem"
    else Survived(s, readable, key)
  }

  /** Configuration survives an update: whatever happened to the service between the
      capture and a restore that completes, its named settings are afterwards those
      from before the update, but for the directory and the account. */
  lemma ConfigurationSurvives(before: Service, c: Context, readable: set<Key>, h: Host, p: Params, now: int,
                              replies: nat -> Reply, tick: nat, key: Key)
    requires !key.Other?
    requires h.context == Some(Parsed(WithService(c, Some(before), readable)))
    requires !IsStale(WithService(c, Some(before), readable), now)
    requires Restore(h, p, now, replies, tick).outcome == Exit(0)
    ensures var after := Restore(h, p, now, replies, tick).host.service;
            && after.Some? && after.value.application == p.appPath
            && key in after.value.config && after.value.config[key] == Expected(before, readable, p, key)
  {
    hide Restore, IsStale, ConfigValue, Survived, Captured, AccountSupported;
    var context := WithService(c, Some(before), readable);
    RestoreRun(h, p, now, replies, tick, context);
    TargetAt(p, context.serviceConfig, key);
    CapturedValue(before, readable, key);
  }

  /** Without a captured value the service logs below the machine's program data. */
  lemma DefaultLogs(s: Service, readable: set<Key>, p: Params)
    requires AppStdout !in readable && AppStderr !in readable
    ensures Expected(s, readable, p, AppStdout) == "C:\\ProgramData\\BackupDatabase\\logs" + "\\service_stdout.log"
    ensures Expected(s, readable, p, AppStderr) == "C:\\ProgramData\\BackupDatabase\\logs" + "\\service_stderr.log"
  {
  }

  // ---- The default installation ----

  lemma SetStep(k: Key, v: string, optional: bool, rest: Script, s: Service, p: Params)
    ensures var step := Then(SetValue(k, v, optional), rest);
            && Effect(step, Some(s), p) == Effect(rest, Some(s.(config := s.config[k := v])), p)
            && Runnable(step, true) == Runnable(rest, true)
            && Deletes(step) == Deletes(rest) && Reports(step) == Reports(rest)
  {
  }

  /** The settings of a default installation that come first. */
  function FirstSettings(p: Params): map<Key, string> {
    p.initial[AppParameters := "--mode=server --minimized --run-as-service"][AppDirectory := p.appDirectory]
      [AppEnvironmentExtra := "SERVICE_MODE=server"][DisplayName := "Backup Database Service"]
      [Description := "Servico de backup automatico para SQL Server, Sybase, PostgreSQL e Firebird"]
      [Start := "SERVICE_AUTO_START"][AppNoConsole := "1"]
  }

  /** The settings of a default installation, as a map. */
  function InstallConfig(p: Params, logPath: string): map<Key, string> {
    FirstSettings(p)[AppStdout := logPath + "\\service_stdout.log"]
      [AppStderr := logPath + "\\service_stderr.log"][AppExitDefault := "Restart"][AppExit77 := "Exit"]
      [AppExit78 := "Exit"][AppRestartDelay := "60000"][ObjectName := "LocalSystem"]
  }

  lemma InstallEffect(p: Params, logPath: string, rest: Script, s: Service)
    requires s.config == p.initial
    ensures Effect(InstallSettings(p, logPath, rest), Some(s), p)
         == Effect(rest, Some(s.(config := InstallConfig(p, logPath))), p)
    ensures Runnable(InstallSettings(p, logPath, rest), true) == Runnable(rest, true)
    ensures Deletes(InstallSettings(p, logPath, rest)) == Deletes(rest)
    ensures Reports(InstallSettings(p, logPath, rest)) == Reports(rest)
  {
    hide Effect, Runnable, Deletes, Reports;
    var t, now := InstallSettings(p, logPath, rest), s;
    SetStep(AppParameters, t.command.value, t.command.optional, t.rest, now, p);
    t, now := t.rest, now.(config := now.config[AppParameters := t.command.value]);
    SetStep(AppDirectory, t.command.value, t.command.optional, t.rest, now, p);
    t, now := t.rest, now.(config := now.config[AppDirectory := t.command.value]);
    SetStep(AppEnvironmentExtra, t.command.value, t.command.optional, t.rest, now, p);
    t, now := t.rest, now.(config := now.config[AppEnvironmentExtra := t.command.value]);
    SetStep(DisplayName, t.command.value, t.command.optional, t.rest, now, p);
    t, now := t.rest, now.(config := now.config[DisplayName := t.command.value]);
    SetStep(Description, t.command.value, t.command.optional, t.rest, now, p);
    t, now := t.rest, now.(config := now.config[Description := t.command.value]);
    SetStep(Start, t.command.value, t.command.optional, t.rest, now, p);
    t, now := t.rest, now.(config := now.config[Start := t.command.value]);
    SetStep(AppNoConsole, t.command.value, t.command.optional, t.rest, now, p);
    t, now := t.rest, now.(config := now.config[AppNoConsole := t.command.value]);
    SetStep(AppStdout, t.command.value, t.command.optional, t.rest, now, p);
    t, now := t.rest, now.(config := now.config[AppStdout := t.command.value]);
    SetStep(AppStderr, t.command.value, t.command.optional, t.rest, now, p);
    t, now := t.rest, now.(config := now.config[AppStderr := t.command.value]);
    SetStep(AppExitDefault, t.command.value, t.command.optional, t.rest, now, p);
    t, now := t.rest, now.(config := now.config[AppExitDefault := t.command.value]);
    SetStep(AppExit77, t.command.value, t.command.optional, t.rest, now, p);
    t, now := t.rest, now.(config := now.config[AppExit77 := t.command.value]);
    SetStep(AppExit78, t.command.value, t.command.optional, t.rest, now, p);
    t, now := t.rest, now.(config := now.config[AppExit78 := t.command.value]);
    SetStep(AppRestartDelay, t.command.value, t.command.optional, t.rest, now, p);
    t, now := t.rest, now.(config := now.config[AppRestartDelay := t.command.value]);
    SetStep(ObjectName, t.command.value, t.command.optional, t.rest, now, p);
    t, now := t.rest, now.(config := now.config[ObjectName := t.command.value]);
  }

  lemma BlankMeansDefault(k: Key)
    ensures ConfigValue(map[], k) == DefaultValue(k)
  {
  }

  predicate IsFirstSetting(k: Key) {
    k.AppParameters? || k.AppDirectory? || k.AppEnvironmentExtra? || k.DisplayName? || k.Description? || k.Start?
    || k.AppNoConsole?
  }

  lemma FirstValue(p: Params, k: Key)
    ensures k in FirstSettings(p) <==> k in p.initial || IsFirstSetting(k)
    ensures k in FirstSettings(p) ==>
              FirstSettings(p)[k] == if IsFirstSetting(k) then Setting(p, map[], k) else p.initial[k]
  {
    BlankMeansDefault(k);
    hide ConfigValue;
  }

  lemma InstallValue(p: Params, k: Key)
    ensures k in InstallConfig(p, LogsDirectory) <==> k in p.initial || !k.Other?
    ensures k in InstallConfig(p, LogsDirectory) ==>
              InstallConfig(p, LogsDirectory)[k] == if k.Other? then p.initial[k]
                                                    else if k == ObjectName then "LocalSystem"
                                                    else Setting(p, map[], k)
  {
    FirstValue(p, k);
    BlankMeansDefault(k);
    hide ConfigValue, FirstSettings;
  }

  lemma InstallConfigIsTarget(p: Params)
    ensures InstallConfig(p, LogsDirectory) == TargetConfig(p, map[])
  {
    hide TargetConfig, Setting;
    var a, b := InstallConfig(p, LogsDirectory), TargetConfig(p, map[]);
    forall k
      ensures k in a <==> k in b
      ensures k in a ==> a[k] == b[k]
    {
      TargetAt(p, map[], k);
      InstallValue(p, k);
    }
  }

  /** The service of a default installation: one record, whether or not it is started
      and the polling helper is there. */
  function DefaultService(p: Params, start: bool): Service {
    Service(p.appPath, TargetConfig(p, map[]), if start && p.helperPresent then Running else Stopped)
  }

  lemma InstalledTail(p: Params, start: bool, s: Service)
    ensures var tail := Then(VerifyInstalled, StartInstalled(p, start));
            && Runnable(tail, true) && (Reports(tail) <==> start && !p.helperPresent)
            && Effect(tail, Some(s), p) == Some(if start && p.helperPresent then s.(state := Running) else s)
  {
    var end := StartInstalled(p, start);
    assert Runnable(end, true) && (Reports(end) <==> start && !p.helperPresent);
    assert Effect(end, Some(s), p) == Some(if start && p.helperPresent then s.(state := Running) else s);
  }

  /** A default installation in which nothing fails writes the default record; it
      exits with 1 exactly when it is to start the service and cannot poll. */
  lemma DefaultInstall(h: Host, p: Params, start: bool, replies: nat -> Reply, tick: nat)
    requires NothingFails(replies) && p.nssmPresent && p.appPresent
    ensures var r := Install(h, p, LogsDirectory, start, replies, tick);
            && r.outcome == Exit(if start && !p.helperPresent then 1 else 0)
            && r.host.service == Some(DefaultService(p, start))
  {
    hide InstallSettings, TargetConfig, InstallConfig, Perform, NothingFails, StartInstalled;
    var tail := Then(VerifyInstalled, StartInstalled(p, start));
    var s := Service(p.appPath, p.initial, Stopped);
    var done := s.(config := InstallConfig(p, LogsDirectory));
    InstallEffect(p, LogsDirectory, tail, s);
    InstallConfigIsTarget(p);
    InstalledTail(p, start, done);
    var register := Then(InstallService(p.appPath), InstallSettings(p, LogsDirectory, tail));
    assert Runnable(register, false) && Effect(register, None, p) == Effect(tail, Some(done), p);
    assert Reports(register) == Reports(tail);
    SmoothRun(InstallScript(p, LogsDirectory, h.service.Some?, start), h, p, replies, tick);
  }

  /** Restoring a captured service that had no values of its own gives the record of a
      default installation in which nothing fails, started or not, with or without
      the polling helper; and the run state too when that installation sees it run. */
  lemma DefaultRestoreIsInstall(h: Host, c: Context, p: Params, now: int, replies: nat -> Reply,
                                blank: Host, start: bool, smooth: nat -> Reply)
    requires h.context == Some(Parsed(c)) && !IsStale(c, now) && c.serviceExists && c.serviceConfig == map[]
    requires Restore(h, p, now, replies, 0).outcome == Exit(0)
    requires NothingFails(smooth) && p.appPresent
    ensures var restored := Restore(h, p, now, replies, 0).host.service;
            var installed := Install(blank, p, LogsDirectory, start, smooth, 0).host.service;
            && restored.Some? && installed.Some?
            && restored.value.application == installed.value.application
            && restored.value.config == installed.value.config
            && (start && p.helperPresent ==> restored == installed)
  {
    hide Restore, Install, IsStale, NothingFails, TargetConfig, AccountSupported;
    RestoreRun(h, p, now, replies, 0, c);
    DefaultInstall(blank, p, start, smooth, 0);
  }

  lemma {:induction false} NoDeletion(s: Script, h: Host, p: Params, replies: nat -> Reply, tick: nat)
    requires !Deletes(s)
    ensures Perform(s, h, p, replies, tick).host.context == h.context
    decreases s
  {
    if s.Then? {
      var (next, outcome) := Execute(s.command, h, p, replies(tick));
      if outcome.InProgress? {
        NoDeletion(s.rest, next, p, replies, tick + 1);
      }
    }
  }

  /** An installation leaves the context file alone, however it ends. */
  lemma InstallKeepsContext(h: Host, p: Params, logPath: string, start: bool, replies: nat -> Reply, tick: nat)
    ensures Install(h, p, logPath, start, replies, tick).host.context == h.context
  {
    hide InstallSettings, Perform, Execute, Effect, Runnable, Reports, InstallConfig;
    var end := StartInstalled(p, start);
    assert !Deletes(end);
    var tail := Then(VerifyInstalled, end);
    assert !Deletes(tail);
    InstallEffect(p, logPath, tail, Service(p.appPath, p.initial, Stopped));
    var register := Then(InstallService(p.appPath), InstallSettings(p, logPath, tail));
    assert !Deletes(register);
    NoDeletion(InstallScript(p, logPath, h.service.Some?, start), h, p, replies, tick);
  }
}
