/**
 * The two client commands that change modules: `modules set` (enable or
 * disable a list of modules) and `scope set` (replace, extend or shrink one
 * module's scope).  Each is a specification function on the service state
 * `Daemon`, a method that runs the command's loop against a `CLIService`
 * object, and lemmas that say what the specification promises.
 */
module ModuleCommands {
  import opened Scopes
  import opened CliService
  import opened DaemonService

  // =====================================================================
  // modules set
  // =====================================================================

  /** The exit statuses `modules set` returns (ERRCODES ordinals are not modelled). */
  datatype ModulesStatus = ModulesOk | EmptyScope | EnableDisable

  /** The final state, the status, and whether "Reboot is required" was printed. */
  datatype ModulesRun = ModulesRun(after: Daemon, status: ModulesStatus, reboot: bool)

  /** `getModuleScope` answers with a list: the module is valid and has a stored scope. */
  predicate HasScope(d: Daemon, m: string)
  {
    IsValidXposedModule(d.packages, m) && m in d.config.scopes
  }

  /**
   * `SetModulesCommand.call` from the current module on: a null scope skips the
   * module, an enable with fewer than two scope entries stops with EMPTY_SCOPE,
   * a refused change stops with ENABLE_DISABLE, and the reboot notice is printed
   * only after the whole list went through.
   */
  function SetModules(d: Daemon, modules: seq<string>, enable: bool, reboot: bool): (r: ModulesRun)
    ensures r.status != ModulesOk ==> !r.reboot
    ensures r.status == EmptyScope ==> enable
    ensures r.status == ModulesOk && reboot ==> r.reboot
    decreases |modules|
  {
    if modules == [] then ModulesRun(d, ModulesOk, reboot)
    else
      var m := modules[0];
      var got := GetModuleScope(d, m);
      match got.value
      case None => SetModules(got.after, modules[1..], enable, reboot)
      case Some(scope) =>
        if enable && |scope| < 2 then ModulesRun(got.after, EmptyScope, false)
        else
          var change := if enable then EnableModule(got.after, m) else DisableModule(got.after, m);
          if !change.value then ModulesRun(change.after, EnableDisable, false)
          else SetModules(change.after, modules[1..], enable, reboot || InScope(Android, scope))
  }

  /** Only the enabled set can change, and only for the listed modules. */
  ghost predicate OnlyEnabledChanges(d: Daemon, e: Daemon, touched: seq<string>)
  {
    && e.packages == d.packages
    && e.config.scopes == d.config.scopes
    && e.config.autoInclude == d.config.autoInclude
    && e.config.refused == d.config.refused
    && forall p :: p !in touched ==> (p in e.config.enabled <==> p in d.config.enabled)
  }

  /** Every listed module that has a scope ends enabled (for -e) or disabled (for -d). */
  predicate AllApplied(d: Daemon, e: Daemon, modules: seq<string>, enable: bool)
  {
    forall i :: 0 <= i < |modules| && HasScope(d, modules[i]) ==> (modules[i] in e.config.enabled <==> enable)
  }

  /** Some listed module that has a scope has "android" in it. */
  predicate SomeScopeHasAndroid(d: Daemon, modules: seq<string>)
  {
    exists i :: 0 <= i < |modules| && HasScope(d, modules[i]) && InScope(Android, d.config.scopes[modules[i]])
  }

  lemma {:induction false} SetModulesFrame(d: Daemon, modules: seq<string>, enable: bool, reboot: bool)
    ensures OnlyEnabledChanges(d, SetModules(d, modules, enable, reboot).after, modules)
    decreases |modules|
  {
    if modules != [] {
      var m := modules[0];
      var got := GetModuleScope(d, m);
      if got.value.Some? && !(enable && |got.value.value| < 2) {
        var change := if enable then EnableModule(got.after, m) else DisableModule(got.after, m);
        if change.value {
          SetModulesFrame(change.after, modules[1..], enable, reboot || InScope(Android, got.value.value));
        }
      } else if got.value.None? {
        SetModulesFrame(got.after, modules[1..], enable, reboot);
      }
    }
  }

  /**
   * When `modules set` completes, every listed module with a scope is in the
   * requested state, and when enabling, each of their scopes had at least
   * two entries.
   */
  lemma {:induction false} SetModulesCompleted(d: Daemon, modules: seq<string>, enable: bool, reboot: bool)
    requires SetModules(d, modules, enable, reboot).status == ModulesOk
    ensures AllApplied(d, SetModules(d, modules, enable, reboot).after, modules, enable)
    ensures enable ==> forall i :: 0 <= i < |modules| && HasScope(d, modules[i]) ==> |d.config.scopes[modules[i]]| >= 2
    decreases |modules|
  {
    if modules != [] {
      var m := modules[0];
      var got := GetModuleScope(d, m);
      if got.value.None? {
        SetModulesCompleted(got.after, modules[1..], enable, reboot);
        SetModulesTail(d, got.after, modules);
        CompletedCons(d, got.after, SetModules(d, modules, enable, reboot).after, modules, enable);
      } else {
        var scope := got.value.value;
        var change := if enable then EnableModule(got.after, m) else DisableModule(got.after, m);
        var next := reboot || InScope(Android, scope);
        SetModulesCompleted(change.after, modules[1..], enable, next);
        SetModulesFrame(change.after, modules[1..], enable, next);
        SetModulesTail(d, change.after, modules);
        CompletedCons(d, change.after, SetModules(d, modules, enable, reboot).after, modules, enable);
      }
    }
  }

  /** The first module's outcome and the tail's, put together. */
  lemma CompletedCons(d: Daemon, d1: Daemon, e: Daemon, modules: seq<string>, enable: bool)
    requires modules != []
    requires forall x :: HasScope(d1, x) == HasScope(d, x)
    requires d1.config.scopes == d.config.scopes
    requires AllApplied(d1, e, modules[1..], enable)
    requires enable ==> forall i :: 0 <= i < |modules[1..]| && HasScope(d1, modules[1..][i]) ==> |d1.config.scopes[modules[1..][i]]| >= 2
    requires HasScope(d, modules[0]) ==> (modules[0] in e.config.enabled <==> enable)
    requires HasScope(d, modules[0]) && enable ==> |d.config.scopes[modules[0]]| >= 2
    ensures AllApplied(d, e, modules, enable)
    ensures enable ==> forall i :: 0 <= i < |modules| && HasScope(d, modules[i]) ==> |d.config.scopes[modules[i]]| >= 2
  {
    forall i | 0 <= i < |modules| && HasScope(d, modules[i])
      ensures modules[i] in e.config.enabled <==> enable
      ensures enable ==> |d.config.scopes[modules[i]]| >= 2
    {
      if i > 0 {
        assert modules[i] == modules[1..][i - 1];
      }
    }
  }

  /** When `modules set` completes, the reboot notice is printed exactly when one of the listed scopes contains "android". */
  lemma {:induction false} SetModulesReboot(d: Daemon, modules: seq<string>, enable: bool, reboot: bool)
    requires SetModules(d, modules, enable, reboot).status == ModulesOk
    ensures SetModules(d, modules, enable, reboot).reboot <==> reboot || SomeScopeHasAndroid(d, modules)
    decreases |modules|
  {
    if modules != [] {
      var m := modules[0];
      var got := GetModuleScope(d, m);
      if got.value.None? {
        SetModulesReboot(got.after, modules[1..], enable, reboot);
        SetModulesTail(d, got.after, modules);
        if SomeScopeHasAndroid(d, modules) {
          var i :| 0 <= i < |modules| && HasScope(d, modules[i]) && InScope(Android, d.config.scopes[modules[i]]);
          assert i > 0 && modules[i] == modules[1..][i - 1];
        }
      } else {
        var scope := got.value.value;
        var change := if enable then EnableModule(got.after, m) else DisableModule(got.after, m);
        var next := reboot || InScope(Android, scope);
        SetModulesReboot(change.after, modules[1..], enable, next);
        SetModulesTail(d, change.after, modules);
        if SomeScopeHasAndroid(d, modules) && !InScope(Android, scope) {
          var i :| 0 <= i < |modules| && HasScope(d, modules[i]) && InScope(Android, d.config.scopes[modules[i]]);
          assert i > 0 && modules[i] == modules[1..][i - 1];
        }
        if InScope(Android, scope) {
          assert HasScope(d, m);
        }
      }
    }
  }

  /** One step of `modules set` keeps packages and scopes, so `HasScope` means the same after it. */
  lemma SetModulesTail(d: Daemon, e: Daemon, modules: seq<string>)
    requires modules != []
    requires e.packages == d.packages && e.config.scopes == d.config.scopes
    ensures forall x :: HasScope(e, x) == HasScope(d, x)
    ensures SomeScopeHasAndroid(e, modules[1..]) ==> SomeScopeHasAndroid(d, modules)
  {
    if SomeScopeHasAndroid(e, modules[1..]) {
      var j :| 0 <= j < |modules[1..]| && HasScope(e, modules[1..][j])
        && InScope(Android, e.config.scopes[modules[1..][j]]);
      assert modules[j + 1] == modules[1..][j];
    }
  }

  /**
   * When `modules set` stops early it stops at some module `k` that has a
   * scope: with EMPTY_SCOPE because an enable met fewer than two entries,
   * with ENABLE_DISABLE because the change was refused.  Modules from `k` on
   * are left as they were (unless listed before `k`), the earlier ones keep
   * their change, and no reboot notice is printed.
   */
  lemma {:induction false} SetModulesStopped(d: Daemon, modules: seq<string>, enable: bool, reboot: bool)
    requires SetModules(d, modules, enable, reboot).status != ModulesOk
    ensures !SetModules(d, modules, enable, reboot).reboot
    ensures exists k :: StopAt(d, SetModules(d, modules, enable, reboot), modules, k, enable)
    decreases |modules|
  {
    var r := SetModules(d, modules, enable, reboot);
    var m := modules[0];
    var got := GetModuleScope(d, m);
    var d1, next;
    if got.value.None? {
      d1, next := got.after, reboot;
    } else if enable && |got.value.value| < 2 {
      assert modules[..0] == [];
      assert StopAt(d, r, modules, 0, enable);
      return;
    } else {
      var change := if enable then EnableModule(got.after, m) else DisableModule(got.after, m);
      if !change.value {
        assert modules[..0] == [];
        assert StopAt(d, r, modules, 0, enable);
        return;
      }
      d1, next := change.after, reboot || InScope(Android, got.value.value);
    }
    assert r == SetModules(d1, modules[1..], enable, next);
    SetModulesStopped(d1, modules[1..], enable, next);
    var j :| StopAt(d1, r, modules[1..], j, enable);
    StoppedPrefix(d, d1, r, modules, j, enable);
  }

  /**
   * `modules set` stopped at module `k`, which has a scope: the modules
   * before it are applied, nothing else changed, and the status names why.
   */
  ghost predicate StopAt(d: Daemon, r: ModulesRun, modules: seq<string>, k: int, enable: bool)
  {
    && 0 <= k < |modules| && HasScope(d, modules[k])
    && OnlyEnabledChanges(d, r.after, modules[..k])
    && AllApplied(d, r.after, modules[..k], enable)
    && (r.status == EmptyScope <==> enable && |d.config.scopes[modules[k]]| < 2)
    && (r.status == EnableDisable ==> modules[k] in (if enable then d.config.refused.enable else d.config.refused.disable))
  }

  /** A stop found in the tail of the list, seen from the state before the first module. */
  lemma StoppedPrefix(d: Daemon, d1: Daemon, r: ModulesRun, modules: seq<string>, j: int, enable: bool)
    requires modules != []
    requires StopAt(d1, r, modules[1..], j, enable)
    requires d1.packages == d.packages && d1.config.scopes == d.config.scopes
    requires d1.config.autoInclude == d.config.autoInclude && d1.config.refused == d.config.refused
    requires forall p :: p != modules[0] ==> (p in d1.config.enabled <==> p in d.config.enabled)
    requires HasScope(d, modules[0]) ==> (modules[0] in d1.config.enabled <==> enable)
    requires !HasScope(d, modules[0]) ==> (modules[0] in d1.config.enabled <==> modules[0] in d.config.enabled)
    ensures StopAt(d, r, modules, j + 1, enable)
  {
    var e := r.after;
    assert modules[j + 1] == modules[1..][j];
    var m := modules[0];
    var pre := modules[..j + 1];
    assert pre == [m] + modules[1..][..j];
    forall i | 0 <= i < |pre| && HasScope(d, pre[i])
      ensures pre[i] in e.config.enabled <==> enable
    {
      if i > 0 {
        assert pre[i] == modules[1..][..j][i - 1];
        assert HasScope(d1, modules[1..][..j][i - 1]);
      } else if m in modules[1..][..j] {
        var q :| 0 <= q < j && modules[1..][..j][q] == m;
        assert HasScope(d1, modules[1..][..j][q]);
      }
    }
  }

  /** `SetModulesCommand.call()` with `-e` (enable true) or `-d` (enable false). */
  method SetModulesCommand(svc: CLIService, modules: seq<string>, enable: bool)
    returns (status: ModulesStatus, reboot: bool)
    modifies svc
    ensures ModulesRun(svc.State(), status, reboot) == SetModules(old(svc.State()), modules, enable, false)
  {
    reboot := false;
    var i := 0;
    while i < |modules|
      invariant 0 <= i <= |modules|
      invariant SetModules(old(svc.State()), modules, enable, false) == SetModules(svc.State(), modules[i..], enable, reboot)
    {
      var name := modules[i];
      assert modules[i..][1..] == modules[i + 1..];
      var lstScope := svc.GetModuleScope(name);
      if lstScope.None? {
        var _ := svc.GetLastErrorMsg();
        i := i + 1;
        continue;
      }
      if enable && |lstScope.value| < 2 {
        return EmptyScope, false;
      }
      var ok;
      if enable {
        ok := svc.EnableModule(name);
      } else {
        ok := svc.DisableModule(name);
      }
      if !ok {
        return EnableDisable, false;
      }
      if InScope(Android, lstScope.value) {
        reboot := true;
      }
      i := i + 1;
    }
    status := ModulesOk;
  }

  // =====================================================================
  // scope set
  // =====================================================================

  /** `--set`, `--append`, `--remove`; none given means `--set`. */
  datatype Mode = SetMode | AppendMode | RemoveMode

  /** How `scope set` ends: success, the SET_SCOPE status after a null scope, or one of its two RuntimeExceptions. */
  datatype ScopeStatus = ScopeOk | ScopeQueryFailed | InvalidEntry(entry: Scope) | WriteFailed

  /** Final state, status, whether the reboot notice was printed, and the list passed to `setModuleScope`. */
  datatype ScopeRun = ScopeRun(after: Daemon, status: ScopeStatus, reboot: bool, written: Option<seq<Scope>>)

  /** The first requested entry that `Utils.validPackageNameAndUserId` rejects. */
  function FirstInvalid(entries: seq<Scope>, valid: Scope -> bool): (r: Option<nat>)
    ensures r.None? <==> forall i :: 0 <= i < |entries| ==> valid(entries[i])
    ensures r.Some? ==> r.value < |entries| && !valid(entries[r.value])
    ensures r.Some? ==> forall i :: 0 <= i < r.value ==> valid(entries[i])
  {
    if entries == [] then None
    else if !valid(entries[0]) then Some(0)
    else
      match FirstInvalid(entries[1..], valid)
      case None => None
      case Some(k) => Some(k + 1)
  }

  /** A valid requested entry is the "android" package. */
  predicate RequestsAndroid(entries: seq<Scope>, valid: Scope -> bool)
  {
    exists i :: 0 <= i < |entries| && valid(entries[i]) && entries[i].packageName == Android
  }

  /** `list.removeIf(app -> same package and user)`. */
  function Without(list: seq<Scope>, e: Scope): (r: seq<Scope>)
    ensures forall x :: x in r <==> x in list && x != e
  {
    if list == [] then []
    else if list[0] == e then Without(list[1..], e)
    else [list[0]] + Without(list[1..], e)
  }

  /** The `--remove` loop: one `removeIf` per requested entry, in order. */
  function RemoveEach(list: seq<Scope>, entries: seq<Scope>): seq<Scope>
  {
    if entries == [] then list
    else Without(RemoveEach(list, entries[..|entries| - 1]), entries[|entries| - 1])
  }

  /** Reference definition: the current entries that match no requested entry, in order. */
  function KeepNotIn(list: seq<Scope>, entries: seq<Scope>): (r: seq<Scope>)
    ensures |r| <= |list|
  {
    if list == [] then []
    else if list[0] in entries then KeepNotIn(list[1..], entries)
    else [list[0]] + KeepNotIn(list[1..], entries)
  }

  lemma {:induction false} WithoutKeepNotIn(list: seq<Scope>, entries: seq<Scope>, e: Scope)
    ensures Without(KeepNotIn(list, entries), e) == KeepNotIn(list, entries + [e])
  {
    if list != [] {
      WithoutKeepNotIn(list[1..], entries, e);
      assert list[0] in entries + [e] <==> list[0] in entries || list[0] == e;
    }
  }

  /** Removing entry by entry is the same as keeping what matches no entry. */
  lemma {:induction false} RemoveEachKeepsRest(list: seq<Scope>, entries: seq<Scope>)
    ensures RemoveEach(list, entries) == KeepNotIn(list, entries)
    decreases |entries|
  {
    if entries == [] {
      KeepNotInNone(list);
    } else {
      var init := entries[..|entries| - 1];
      RemoveEachKeepsRest(list, init);
      WithoutKeepNotIn(list, init, entries[|entries| - 1]);
      assert init + [entries[|entries| - 1]] == entries;
    }
  }

  lemma {:induction false} KeepNotInNone(list: seq<Scope>)
    ensures KeepNotIn(list, []) == list
  {
    if list != [] {
      KeepNotInNone(list[1..]);
    }
  }

  lemma {:induction false} KeepNotInAppend(a: seq<Scope>, b: seq<Scope>, entries: seq<Scope>)
    ensures KeepNotIn(a + b, entries) == KeepNotIn(a, entries) + KeepNotIn(b, entries)
  {
    if a != [] {
      assert (a + b)[1..] == a[1..] + b;
      KeepNotInAppend(a[1..], b, entries);
    } else {
      assert a + b == b;
    }
  }

  lemma {:induction false} KeepNotInDisjoint(list: seq<Scope>, entries: seq<Scope>)
    requires forall x :: x in list ==> x !in entries
    ensures KeepNotIn(list, entries) == list
  {
    if list != [] {
      KeepNotInDisjoint(list[1..], entries);
    }
  }

  lemma {:induction false} KeepNotInSelf(list: seq<Scope>, entries: seq<Scope>)
    requires forall x :: x in list ==> x in entries
    ensures KeepNotIn(list, entries) == []
  {
    if list != [] {
      KeepNotInSelf(list[1..], entries);
    }
  }

  /**
   * `--append` of entries none of which is already in the scope, followed by
   * `--remove` of the same entries, gives back the scope as it was, in order.
   */
  lemma AppendThenRemove(current: seq<Scope>, entries: seq<Scope>)
    requires forall x :: x in current ==> x !in entries
    ensures RemoveEach(current + entries, entries) == current
  {
    RemoveEachKeepsRest(current + entries, entries);
    KeepNotInAppend(current, entries, entries);
    KeepNotInDisjoint(current, entries);
    KeepNotInSelf(entries, entries);
    assert current + [] == current;
  }

  /** Write the edited list, then disable the module when fewer than two entries were written. */
  function WriteScope(d: Daemon, pkg: string, list: seq<Scope>, reboot: bool): ScopeRun
  {
    var w := SetModuleScope(d, pkg, list);
    if !w.value then ScopeRun(w.after, WriteFailed, reboot, Some(list))
    else if |list| < 2 then ScopeRun(DisableModule(w.after, pkg).after, ScopeOk, reboot, Some(list))
    else ScopeRun(w.after, ScopeOk, reboot, Some(list))
  }

  /**
   * `SetScopeCommand.call`.  `valid` stands for `Utils.validPackageNameAndUserId`
   * and `added` for the entries `Utils.checkPackageModule` appends to a list.
   */
  function SetScope(d: Daemon, pkg: string, entries: seq<Scope>, mode: Option<Mode>, ignore: bool,
                    valid: Scope -> bool, added: (string, seq<Scope>) -> seq<Scope>): (r: ScopeRun)
    // `setModuleScope` is called exactly when the command gets past validation and the queries
    ensures r.written.Some? <==> r.status == ScopeOk || r.status == WriteFailed
    ensures r.status.InvalidEntry? ==> !ignore && !valid(r.status.entry) && r.status.entry in entries && !r.reboot
    ensures r.after.packages == d.packages
  {
    var m := if mode.None? then SetMode else mode.value;
    var previous := GetModuleScope(d, pkg);
    if m == SetMode && previous.value.None? then ScopeRun(previous.after, ScopeQueryFailed, false, None)
    else
      var androidExist := m == SetMode && InScope(Android, previous.value.value);
      var d1 := if m == SetMode then previous.after else d;
      var invalid := FirstInvalid(entries, valid);
      if !ignore && invalid.Some? then ScopeRun(d1, InvalidEntry(entries[invalid.value]), false, None)
      else
        var reboot := RequestsAndroid(entries, valid) || androidExist;
        if m == SetMode then WriteScope(d1, pkg, entries + added(pkg, entries), reboot)
        else
          var current := GetModuleScope(d1, pkg);
          match current.value
          case None => ScopeRun(current.after, ScopeQueryFailed, reboot, None)
          case Some(list) =>
            var edited := if m == AppendMode then list + entries else RemoveEach(list, entries);
            WriteScope(current.after, pkg, edited + added(pkg, edited), reboot)
  }

  /**
   * Without `--ignore`, an entry that fails validation stops the command
   * before any write: the service state is exactly as before.
   */
  lemma InvalidEntryChangesNothing(d: Daemon, pkg: string, entries: seq<Scope>, mode: Option<Mode>,
                                   valid: Scope -> bool, added: (string, seq<Scope>) -> seq<Scope>)
    requires exists i :: 0 <= i < |entries| && !valid(entries[i])
    ensures var r := SetScope(d, pkg, entries, mode, false, valid, added);
      r.status.InvalidEntry? || r.status == ScopeQueryFailed
    ensures var r := SetScope(d, pkg, entries, mode, false, valid, added);
      r.status.InvalidEntry? ==> r.after == d && r.written.None? && !valid(r.status.entry) && !r.reboot
  {
  }

  /**
   * What `scope set` writes: the requested entries (`--set`), the current scope
   * followed by every requested entry, duplicates kept (`--append`), or the
   * current scope without the requested entries (`--remove`); each followed by
   * what `checkPackageModule` adds.  With `--ignore` invalid entries are
   * written like valid ones.
   */
  lemma {:induction false} ScopeWritten(d: Daemon, pkg: string, entries: seq<Scope>, mode: Option<Mode>, ignore: bool,
                                        valid: Scope -> bool, added: (string, seq<Scope>) -> seq<Scope>)
    requires IsValidXposedModule(d.packages, pkg) && pkg in d.config.scopes
    requires ignore || forall i :: 0 <= i < |entries| ==> valid(entries[i])
    ensures var r := SetScope(d, pkg, entries, mode, ignore, valid, added);
      var current := d.config.scopes[pkg];
      var edited := match mode
        case None => entries
        case Some(SetMode) => entries
        case Some(AppendMode) => current + entries
        case Some(RemoveMode) => KeepNotIn(current, entries);
      r.written == Some(edited + added(pkg, edited))
      && (mode == Some(AppendMode) ==> |edited| == |current| + |entries|)
  {
    if mode == Some(RemoveMode) {
      RemoveEachKeepsRest(d.config.scopes[pkg], entries);
    }
  }

  /**
   * After a successful write `disableModule` is called exactly when fewer
   * than two entries were written, and its answer is ignored: the module ends
   * disabled unless ConfigManager refuses to disable it, in which case the
   * enabled set stays as it was and the command still succeeds.  A failed
   * write changes neither the scope nor the enabled set.
   */
  lemma ScopeAutoDisable(d: Daemon, pkg: string, entries: seq<Scope>, mode: Option<Mode>, ignore: bool,
                         valid: Scope -> bool, added: (string, seq<Scope>) -> seq<Scope>)
    ensures var r := SetScope(d, pkg, entries, mode, ignore, valid, added);
      r.status == ScopeOk ==>
        && r.written.Some? && pkg in d.packages
        && r.after.config.scopes == d.config.scopes[pkg := r.written.value]
        && r.after.config.refused == d.config.refused
        && (|r.written.value| < 2 && pkg !in d.config.refused.disable ==> r.after.config.enabled == d.config.enabled - {pkg})
        && (|r.written.value| < 2 && pkg in d.config.refused.disable ==> r.after.config.enabled == d.config.enabled)
        && (|r.written.value| >= 2 ==> r.after.config.enabled == d.config.enabled)
    ensures var r := SetScope(d, pkg, entries, mode, ignore, valid, added);
      r.status != ScopeOk ==> r.after.config == d.config
  {
    var m := if mode.None? then SetMode else mode.value;
    var previous := GetModuleScope(d, pkg);
    if m == SetMode && previous.value.None? {
    } else {
      var d1 := if m == SetMode then previous.after else d;
      var invalid := FirstInvalid(entries, valid);
      var reboot := RequestsAndroid(entries, valid) || (m == SetMode && InScope(Android, previous.value.value));
      if !ignore && invalid.Some? {
      } else if m == SetMode {
        WriteScopeEffect(d1, pkg, entries + added(pkg, entries), reboot);
      } else {
        var current := GetModuleScope(d1, pkg);
        if current.value.Some? {
          var list := current.value.value;
          var edited := if m == AppendMode then list + entries else RemoveEach(list, entries);
          WriteScopeEffect(current.after, pkg, edited + added(pkg, edited), reboot);
        }
      }
    }
  }

  /**
   * One write of `scope set`: on success the scope is replaced, and a short
   * list disables the module unless ConfigManager refuses the disable.
   */
  lemma WriteScopeEffect(d: Daemon, pkg: string, list: seq<Scope>, reboot: bool)
    ensures var r := WriteScope(d, pkg, list, reboot);
      r.status == ScopeOk ==>
        && r.written == Some(list) && pkg in d.packages
        && r.after.config.scopes == d.config.scopes[pkg := list]
        && r.after.config.refused == d.config.refused
        && (|list| < 2 && pkg !in d.config.refused.disable ==> r.after.config.enabled == d.config.enabled - {pkg})
        && (|list| < 2 && pkg in d.config.refused.disable ==> r.after.config.enabled == d.config.enabled)
        && (|list| >= 2 ==> r.after.config.enabled == d.config.enabled)
    ensures var r := WriteScope(d, pkg, list, reboot);
      r.status != ScopeOk ==> r.after.config == d.config
  {
  }

  /**
   * The reboot notice is printed, once validation has passed, exactly when a
   * valid requested entry is "android" (whatever the mode, so removing it
   * counts too) or, in `--set` mode, when "android" was in the previous scope.
   */
  lemma ScopeRebootRule(d: Daemon, pkg: string, entries: seq<Scope>, mode: Option<Mode>, ignore: bool,
                        valid: Scope -> bool, added: (string, seq<Scope>) -> seq<Scope>)
    requires IsValidXposedModule(d.packages, pkg) && pkg in d.config.scopes
    requires ignore || forall i :: 0 <= i < |entries| ==> valid(entries[i])
    ensures SetScope(d, pkg, entries, mode, ignore, valid, added).reboot <==>
      RequestsAndroid(entries, valid)
      || ((mode.None? || mode == Some(SetMode)) && InScope(Android, d.config.scopes[pkg]))
  {
  }

  /** `SetScopeCommand.call()`. */
  method SetScopeCommand(svc: CLIService, moduleName: string, scopes: seq<Scope>, mode: Option<Mode>, bIgnore: bool,
                         valid: Scope -> bool, added: (string, seq<Scope>) -> seq<Scope>)
    returns (status: ScopeStatus, bMsgReboot: bool, written: Option<seq<Scope>>)
    modifies svc
    ensures ScopeRun(svc.State(), status, bMsgReboot, written)
         == SetScope(old(svc.State()), moduleName, scopes, mode, bIgnore, valid, added)
  {
    var m := if mode.None? then SetMode else mode.value;

    var bAndroidExist := false;
    if m == SetMode {
      var lstScope := svc.GetModuleScope(moduleName);
      if lstScope.None? {
        var _ := svc.GetLastErrorMsg();
        return ScopeQueryFailed, false, None;
      }
      bAndroidExist := InScope(Android, lstScope.value);
    }

    var invalid;
    invalid, bMsgReboot := CheckEntries(scopes, bIgnore, valid);
    if invalid.Some? {
      return InvalidEntry(scopes[invalid.value]), false, None;
    }
    if bAndroidExist && !bMsgReboot {
      bMsgReboot := true;
    }

    var lstScope: seq<Scope>;
    if m == SetMode {
      lstScope := scopes;
    } else {
      var current := svc.GetModuleScope(moduleName);
      if current.None? {
        var _ := svc.GetLastErrorMsg();
        return ScopeQueryFailed, bMsgReboot, None;
      }
      lstScope := EditScope(current.value, scopes, m == AppendMode);
    }
    lstScope := lstScope + added(moduleName, lstScope);
    status, written := WriteScopeCommand(svc, moduleName, lstScope);
  }

  /**
   * The validation loop of `scope set`: the first invalid entry unless
   * `--ignore` is given, and whether a valid entry names "android".
   */
  method CheckEntries(scopes: seq<Scope>, bIgnore: bool, valid: Scope -> bool) returns (invalid: Option<nat>, bMsgReboot: bool)
    ensures bIgnore ==> invalid.None?
    ensures !bIgnore ==> invalid == FirstInvalid(scopes, valid)
    ensures invalid.None? ==> (bMsgReboot <==> RequestsAndroid(scopes, valid))
  {
    bMsgReboot := false;
    var i := 0;
    while i < |scopes|
      invariant 0 <= i <= |scopes|
      invariant !bIgnore ==> forall j :: 0 <= j < i ==> valid(scopes[j])
      invariant bMsgReboot <==> exists j :: 0 <= j < i && valid(scopes[j]) && scopes[j].packageName == Android
    {
      var scope := scopes[i];
      if valid(scope) {
        if scope.packageName == Android {
          bMsgReboot := true;
        }
      } else if !bIgnore {
        assert FirstInvalid(scopes, valid) == Some(i);
        return Some(i), false;
      }
      i := i + 1;
    }
    invalid := None;
  }

  /** The edit loop of `scope set`: append every entry, or remove each in turn. */
  method EditScope(current: seq<Scope>, scopes: seq<Scope>, append: bool) returns (lstScope: seq<Scope>)
    ensures lstScope == if append then current + scopes else RemoveEach(current, scopes)
  {
    lstScope := current;
    var k := 0;
    while k < |scopes|
      invariant 0 <= k <= |scopes|
      invariant lstScope == if append then current + scopes[..k] else RemoveEach(current, scopes[..k])
    {
      if append {
        lstScope := lstScope + [scopes[k]];
      } else {
        lstScope := Without(lstScope, scopes[k]);
      }
      assert scopes[..k + 1][..k] == scopes[..k];
      k := k + 1;
    }
    assert scopes[..|scopes|] == scopes;
  }

  /** The write at the end of `scope set`: store the list and disable the module when fewer than two entries remain. */
  method WriteScopeCommand(svc: CLIService, moduleName: string, lstScope: seq<Scope>)
    returns (status: ScopeStatus, written: Option<seq<Scope>>)
    modifies svc
    ensures forall reboot :: ScopeRun(svc.State(), status, reboot, written) == WriteScope(old(svc.State()), moduleName, lstScope, reboot)
  {
    written := Some(lstScope);
    var ok := svc.SetModuleScope(moduleName, lstScope);
    if !ok {
      return WriteFailed, written;
    }
    if |lstScope| < 2 {
      var _ := svc.DisableModule(moduleName);
    }
    status := ScopeOk;
  }
}
