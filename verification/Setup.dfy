/** installer/setup.iss as a sequence of protocol steps around the scripts. */
module Setup {
  import opened Text
  import opened Nssm
  import opened Handoff
  import opened HandoffTheorems
  import opened MergeEnv
  import opened MergeTheorems
  import opened MergeScript

  const MaxRetries: nat := 5

  predicate StopAccepted(code: int) {
    code == 0 || code == 1062
  }

  /** How the manager answers a stop: the exit codes of the tries and whether the
      polling sees STOPPED. */
  datatype StopAnswers = StopAnswers(codes: nat -> int, seenStopped: bool)

  /** A service once it was asked to stop. */
  function AfterStop(service: Option<Service>, answers: StopAnswers): Option<Service> {
    if service.Some? && answers.seenStopped && exists i: nat :: i < MaxRetries && StopAccepted(answers.codes(i))
    then Some(service.value.(state := Stopped))
    else service
  }

  /** Stops the service: at most five tries, the first accepted one decides by what
      the polling for STOPPED saw. */
  method StopService(m: Machine, answers: StopAnswers) returns (stopped: bool, attempts: nat)
    modifies m`service
    ensures m.service == AfterStop(old(m.service), answers)
    ensures old(m.service).None? ==> stopped && attempts == 0
    ensures old(m.service).Some? ==>
              && 1 <= attempts <= 5
              && (forall i: nat :: i < attempts - 1 ==> answers.codes(i) != 0 && answers.codes(i) != 1062)
              && (answers.codes(attempts - 1) == 0 || answers.codes(attempts - 1) == 1062 || attempts == 5)
              && (stopped <==>
                    (answers.codes(attempts - 1) == 0 || answers.codes(attempts - 1) == 1062) && answers.seenStopped)
  {
    attempts := 0;
    if m.service.None? {
      return true, 0;
    }
    while attempts < MaxRetries
      invariant attempts <= MaxRetries && m.service == old(m.service)
      invariant forall i: nat :: i < attempts ==> !StopAccepted(answers.codes(i))
    {
      var code := answers.codes(attempts);
      attempts := attempts + 1;
      if StopAccepted(code) {
        if answers.seenStopped {
          m.service := Some(m.service.value.(state := Stopped));
        }
        return answers.seenStopped, attempts;
      }
    }
    return false, attempts;
  }

  /** A service after `n` attempts to remove it. `stops(i)` says whether the `i`th stop
      took effect, `gone(i)` whether the `i`th deletion, accepted or not, leaves the
      service unknown to the manager: an accepted one may leave it marked for deletion. */
  function AfterRemovals(service: Option<Service>, stops: nat -> bool, gone: nat -> bool, n: nat): Option<Service> {
    if service.None? || exists i: nat :: i < n && gone(i) then None
    else if exists i: nat :: i < n && stops(i) then Some(service.value.(state := Stopped))
    else service
  }

  /** Removes the service: stop and delete, at most five times, until a deletion is
      accepted. Without an accepted deletion the result is what a last query sees. */
  method RemoveService(m: Machine, stops: nat -> bool, deleteCodes: nat -> int, gone: nat -> bool)
    returns (removed: bool, attempts: nat)
    modifies m`service
    ensures old(m.service).None? ==> removed && attempts == 0
    ensures old(m.service).Some? ==>
              && 1 <= attempts <= 5
              && (forall i: nat :: i < attempts - 1 ==> deleteCodes(i) != 0)
              && (deleteCodes(attempts - 1) == 0 || attempts == 5)
              && (removed <==> deleteCodes(attempts - 1) == 0 || m.service == None)
    ensures m.service == AfterRemovals(old(m.service), stops, gone, attempts)
  {
    attempts := 0;
    if m.service.None? {
      return true, 0;
    }
    while attempts < MaxRetries
      invariant attempts <= MaxRetries
      invariant m.service == AfterRemovals(old(m.service), stops, gone, attempts)
      invariant forall i: nat :: i < attempts ==> deleteCodes(i) != 0
    {
      if m.service.Some? && stops(attempts) {
        m.service := Some(m.service.value.(state := Stopped));
      }
      if gone(attempts) {
        m.service := None;
      }
      attempts := attempts + 1;
      if deleteCodes(attempts - 1) == 0 {
        return true, attempts;
      }
    }
    return m.service.None?, attempts;
  }

  /** What one silent update meets: which settings can be read, and whether all queries
      are quiet, how the service manager answers, whether the previous version's
      uninstaller is found, whether the capture and the merge can be launched, and
      whether the startup task is selected in server mode. */
  datatype Update = Update(readable: set<Key>, quiet: bool, stop: StopAnswers, captureRuns: bool,
                           uninstaller: bool, uninstallerStop: StopAnswers, stops: nat -> bool,
                           deleteCodes: nat -> int, gone: nat -> bool,
                           mergeRuns: bool, startup: bool, logPath: string)

  /** How the handoff ends. `Aborted` leaves the step behind the copied files, and with
      it the registration and the restore; the setup itself goes on to its end. */
  datatype Result = Aborted | NothingToRestore | Restored(outcome: Outcome)

  /** The context once the capture step is over. */
  function CapturedContext(context: Option<ContextFile>, service: Option<Service>, u: Update): Option<ContextFile> {
    match context
    case None => None
    case Some(Malformed) => context
    case Some(Parsed(c)) =>
      if u.captureRuns && (service.None? || u.quiet) then Some(Parsed(WithService(c, service, u.readable))) else context
  }

  /** The previous version's uninstaller: it stops and removes the service. */
  method Uninstall(m: Machine, u: Update) returns (attempts: nat)
    modifies m`service
    ensures m.service == AfterRemovals(AfterStop(old(m.service), u.uninstallerStop), u.stops, u.gone, attempts)
    ensures old(m.service).Some? ==>
              && 1 <= attempts <= 5
              && (forall i: nat :: i < attempts - 1 ==> u.deleteCodes(i) != 0)
              && (u.deleteCodes(attempts - 1) == 0 || attempts == 5)
  {
    attempts := 0;
    if m.service.Some? {
      var stopped, tries := StopService(m, u.uninstallerStop);
    }
    if m.service.Some? {
      var removed;
      removed, attempts := RemoveService(m, u.stops, u.deleteCodes, u.gone);
    }
  }

  lemma CaptureIgnoresRunState(s: Service, state: RunState, readable: set<Key>)
    ensures Captured(s.(state := state), readable) == Captured(s, readable)
  {
    hide Trim;
  }

  /** `InitializeSetup`: stop the service, capture its state, uninstall the previous
      version. `attempts` counts the deletions of the uninstaller. */
  method InitializeSetup(m: Machine, u: Update) returns (attempts: nat)
    modifies m`context, m`service
    ensures m.context == CapturedContext(old(m.context), old(m.service), u)
    ensures var stopped := AfterStop(old(m.service), u.stop);
            m.service == if u.uninstaller
                         then AfterRemovals(AfterStop(stopped, u.uninstallerStop), u.stops, u.gone, attempts)
                         else stopped
  {
    hide Captured, AfterRemovals;
    attempts := 0;
    ghost var before := m.service;
    if m.service.Some? {
      var stopped, tries := StopService(m, u.stop);
      CaptureIgnoresRunState(before.value, m.service.value.state, u.readable);
    }
    if m.context.Some? && u.captureRuns {
      var captured := CaptureUpdateContext(m, u.readable, u.quiet);
    }
    if u.uninstaller {
      attempts := Uninstall(m, u);
    }
  }

  lemma NoContextCaptured(context: Option<ContextFile>, service: Option<Service>, u: Update)
    ensures CapturedContext(context, service, u) == None <==> context == None
  {
  }

  /** The context file holds the captured state of the service and is still fresh. */
  ghost predicate HoldsCapture(context: Option<ContextFile>, service: Option<Service>, u: Update, now: int) {
    && u.captureRuns && u.quiet && service.Some? && context.Some? && context.value.Parsed?
    && !IsStale(WithService(context.value.context, service, u.readable), now)
  }

  /** The service has the new program and every named setting as expected. */
  ghost predicate RestoredFrom(before: Service, u: Update, p: Params, service: Option<Service>) {
    && service.Some? && service.value.application == p.appPath
    && forall key: Key :: !key.Other? ==>
         key in service.value.config && service.value.config[key] == Expected(before, u.readable, p, key)
  }

  lemma CaptureIsRestored(context: Option<ContextFile>, before: Option<Service>, u: Update, h: Host, p: Params,
                          now: int, replies: nat -> Reply, tick: nat)
    requires HoldsCapture(context, before, u, now) && h.context == CapturedContext(context, before, u)
    requires Restore(h, p, now, replies, tick).outcome == Exit(0)
    ensures RestoredFrom(before.value, u, p, Restore(h, p, now, replies, tick).host.service)
  {
    hide IsStale, Expected, Captured, Restore;
    forall key: Key | !key.Other?
      ensures var after := Restore(h, p, now, replies, tick).host.service;
              && after.Some? && after.value.application == p.appPath
              && key in after.value.config && after.value.config[key] == Expected(before.value, u.readable, p, key)
    {
      ConfigurationSurvives(before.value, context.value.context, u.readable, h, p, now, replies, tick, key);
    }
    assert !AppParameters.Other?;
  }

  /** Nothing fails, and the scripts find what they need. */
  ghost predicate IsSmooth(u: Update, p: Params, replies: nat -> Reply) {
    p.nssmPresent && p.appPresent && p.helperPresent && u.logPath == LogsDirectory && NothingFails(replies)
  }

  lemma FirstInstall(h: Host, p: Params, u: Update, replies: nat -> Reply, tick: nat)
    requires IsSmooth(u, p, replies)
    ensures Install(h, p, u.logPath, true, replies, tick).host.service == Some(DefaultService(p, true))
    ensures DefaultService(p, true).state == Running
  {
    hide Install, NothingFails;
    DefaultInstall(h, p, true, replies, tick);
  }

  /** A silent update: prepare, merge the environment file, register the service if
      asked to, restore. Registration and restore are skipped exactly when the merged
      file lacks a critical key, and the context is kept then. When the restore
      completes, the settings of a captured service are those from before the update,
      but for the directory and the account. */
  method SilentUpdate(m: Machine, env: EnvFiles, p: Params, now: int, u: Update)
    returns (r: Result, ghost order: seq<string>)
    modifies m, env
    ensures if u.mergeRuns then IsMigrated(env.target, old(env.target), old(env.legacy), old(env.example), order)
            else env.target == old(env.target)
    ensures r == Aborted <==> u.mergeRuns && !(env.target.Some? && HasFeedUrl(env.target.value))
    ensures r == NothingToRestore <==> r != Aborted && old(m.context) == None
    ensures r == Aborted ==> m.context == CapturedContext(old(m.context), old(m.service), u)
    ensures r.Restored? && r.outcome != Exit(0) && r.outcome != Dead ==>
              m.context == CapturedContext(old(m.context), old(m.service), u)
    ensures r == Restored(Exit(0)) && HoldsCapture(old(m.context), old(m.service), u, now) ==>
              RestoredFrom(old(m.service).value, u, p, m.service)
    ensures r == NothingToRestore && old(m.service).None? && !u.startup ==> m.service == None
    ensures r == NothingToRestore && old(m.service).None? && u.startup && IsSmooth(u, p, m.replies) ==>
              m.service == Some(DefaultService(p, true)) && m.service.value.state == Running
  {
    hide HoldsCapture, RestoredFrom, Restore, Install, HasFeedUrl, CapturedContext, IsMigrated, IsSmooth;
    hide DefaultService;
    ghost var before, context := m.service, m.context;
    var attempts := InitializeSetup(m, u);
    NoContextCaptured(context, before, u);
    order := [];
    if u.mergeRuns {
      var exit;
      exit, order := env.Merge();
      if exit == 2 {
        return Aborted, order;
      }
    }
    if u.startup {
      InstallKeepsContext(m.Snapshot(), p, u.logPath, true, m.replies, m.tick);
      if IsSmooth(u, p, m.replies) {
        FirstInstall(m.Snapshot(), p, u, m.replies, m.tick);
      }
      var installed := RunInstallService(m, p, u.logPath, true);
    }
    if m.context.None? {
      return NothingToRestore, order;
    }
    ghost var h, tick := m.Snapshot(), m.tick;
    var outcome := RestoreUpdateState(m, p, now);
    if outcome != Exit(0) && outcome != Dead {
      FailureKeepsContext(h, p, now, m.replies, tick);
    }
    if outcome == Exit(0) && HoldsCapture(context, before, u, now) {
      CaptureIsRestored(context, before, u, h, p, now, m.replies, tick);
    }
    r := Restored(outcome);
  }
}
