/**
 * The `backup` and `restore` commands: the document a backup produces from
 * the service's answers (format version 2), how a restore replays a version 1
 * or 2 document through the service, and the round trip between the two.
 * Compression, JSON text and files are not modelled: the document is a value.
 */
module Snapshot {
  import opened Scopes
  import opened CliService
  import opened DaemonService

  /** The format version `backup` writes. */
  const Version: int := 2

  /** A scope item: a `{package, userId}` object (version 2) or a bare package string (version 1). */
  datatype ScopeItem = Entry(packageName: string, userId: int) | Bare(packageName: string)

  /** One module object; a key that is absent (or of the wrong type) is None. */
  datatype ModuleRecord = ModuleRecord(
    packageName: Option<string>,
    enable: Option<bool>,
    autoInclude: Option<bool>,
    scope: Option<seq<ScopeItem>>)

  /** The root object: `version` and the `modules` array. */
  datatype Document = Document(version: Option<int>, modules: Option<seq<ModuleRecord>>)

  /** An entry of `getInstalledPackagesFromAllUsers`. */
  datatype PackageInfo = PackageInfo(packageName: string, applicationInfo: AppInfo)

  // ---------------------------------------------------------------------
  // The default module list
  // ---------------------------------------------------------------------

  /** The installed packages whose metadata carries the module marker, in listing order. */
  function MarkedModules(installed: seq<PackageInfo>): (r: seq<string>)
    ensures |r| <= |installed|
    ensures forall p :: p in r <==>
      exists i :: 0 <= i < |installed| && installed[i].packageName == p && HasModuleMarker(installed[i].applicationInfo)
  {
    if installed == [] then []
    else
      var rest := MarkedModules(installed[1..]);
      assert forall p :: p in rest <==>
        exists i :: 1 <= i < |installed| && installed[i].packageName == p && HasModuleMarker(installed[i].applicationInfo)
      by {
        forall p | p in rest
          ensures exists i :: 1 <= i < |installed| && installed[i].packageName == p && HasModuleMarker(installed[i].applicationInfo)
        {
          var j :| 0 <= j < |installed[1..]| && installed[1..][j].packageName == p && HasModuleMarker(installed[1..][j].applicationInfo);
          assert installed[j + 1] == installed[1..][j];
        }
        forall p, i | 1 <= i < |installed| && installed[i].packageName == p && HasModuleMarker(installed[i].applicationInfo)
          ensures p in rest
        {
          assert installed[1..][i - 1] == installed[i];
        }
      }
      if HasModuleMarker(installed[0].applicationInfo) then [installed[0].packageName] + rest else rest
  }

  /**
   * Every marked package of the listing is a module the service accepts,
   * when the listing and the service see the same application info.
   */
  lemma MarkedModulesValid(installed: seq<PackageInfo>, packages: map<string, AppInfo>)
    requires forall i :: 0 <= i < |installed| ==>
      installed[i].packageName in packages && packages[installed[i].packageName] == installed[i].applicationInfo
    ensures forall p :: p in MarkedModules(installed) ==> IsValidXposedModule(packages, p)
  {
  }

  /** The loop both commands run when no module names are given. */
  method ListModules(installed: seq<PackageInfo>) returns (modules: seq<string>)
    ensures modules == MarkedModules(installed)
  {
    modules := [];
    var i := 0;
    while i < |installed|
      invariant 0 <= i <= |installed|
      invariant modules + MarkedModules(installed[i..]) == MarkedModules(installed)
    {
      var packageInfo := installed[i];
      assert installed[i..][1..] == installed[i + 1..];
      if HasModuleMarker(packageInfo.applicationInfo) {
        modules := modules + [packageInfo.packageName];
      }
      i := i + 1;
    }
  }

  /** The module list a command works on: the names given, else every marked package. */
  function ModuleList(installed: seq<PackageInfo>, modulesName: Option<seq<string>>): seq<string>
  {
    if modulesName.None? then MarkedModules(installed) else modulesName.value
  }

  // ---------------------------------------------------------------------
  // backup
  // ---------------------------------------------------------------------

  /** The scope array of a module object: one `{package, userId}` object per entry. */
  function ItemsOf(scope: seq<Scope>): (items: seq<ScopeItem>)
    ensures |items| == |scope|
    ensures forall i :: 0 <= i < |scope| ==> items[i] == Entry(scope[i].packageName, scope[i].userId)
  {
    if scope == [] then [] else ItemsOf(scope[..|scope| - 1]) + [Entry(scope[|scope| - 1].packageName, scope[|scope| - 1].userId)]
  }

  /** The records built so far, the state left, and whether every module had a scope. */
  datatype BackupRun = BackupRun(after: Daemon, records: seq<ModuleRecord>, ok: bool)

  /**
   * The backup loop from the current name on: `enable` from the list taken
   * before the loop, then `getAutoInclude` and `getModuleScope`; a null scope
   * ends the command (the null list is iterated and the exception becomes a
   * RemoteException).
   */
  function BackupFrom(d: Daemon, enabled: set<string>, names: seq<string>): (r: BackupRun)
    ensures r.after.packages == d.packages && r.after.config == d.config
    ensures r.ok ==> |r.records| == |names|
    ensures r.ok ==> forall i :: 0 <= i < |names| ==>
      r.records[i].packageName == Some(names[i]) && r.records[i].enable == Some(names[i] in enabled)
    decreases |names|
  {
    if names == [] then BackupRun(d, [], true)
    else
      var one := BackupOne(d, enabled, names[0]);
      if !one.ok then one
      else
        var rest := BackupFrom(one.after, enabled, names[1..]);
        BackupRun(rest.after, one.records + rest.records, rest.ok)
  }

  /** The body of the backup loop for module `m`: its record, or the failure of a null scope. */
  function BackupOne(d: Daemon, enabled: set<string>, m: string): BackupRun
  {
    var auto := GetAutoInclude(d, m);
    var got := GetModuleScope(auto.after, m);
    match got.value
    case None => BackupRun(got.after, [], false)
    case Some(scope) =>
      BackupRun(got.after, [ModuleRecord(Some(m), Some(m in enabled), Some(auto.value), Some(ItemsOf(scope)))], true)
  }

  /** The document written, if any, and the service state afterwards. */
  datatype Backed = Backed(after: Daemon, document: Option<Document>)

  /**
   * `BackupCommand.call()`.  The backup only reads the configuration; the
   * document it writes has format version 2 and one record per listed
   * module, in order, with the module's enabled flag as listed before the loop.
   */
  function Backup(d: Daemon, installed: seq<PackageInfo>, modulesName: Option<seq<string>>): (r: Backed)
    ensures r.after.packages == d.packages && r.after.config == d.config
    ensures r.document.Some? ==>
      var list := ModuleList(installed, modulesName);
      && r.document.value.version == Some(Version) && r.document.value.modules.Some?
      && |r.document.value.modules.value| == |list|
      && forall i :: 0 <= i < |list| ==>
        r.document.value.modules.value[i].packageName == Some(list[i])
        && r.document.value.modules.value[i].enable == Some(list[i] in d.config.enabled)
  {
    var run := BackupFrom(d, d.config.enabled, ModuleList(installed, modulesName));
    Backed(run.after, if run.ok then Some(Document(Some(Version), Some(run.records))) else None)
  }

  /** The record a backup writes for a module that has a scope. */
  function RecordOf(d: Daemon, enabled: set<string>, m: string): ModuleRecord
    requires m in d.config.scopes
  {
    ModuleRecord(Some(m), Some(m in enabled), Some(m in d.config.autoInclude), Some(ItemsOf(d.config.scopes[m])))
  }

  /**
   * When every named module is a valid module with a scope, the backup leaves
   * the service untouched and writes one record per name, in order.
   */
  lemma {:induction false} BackupOfModules(d: Daemon, enabled: set<string>, names: seq<string>)
    requires forall i :: 0 <= i < |names| ==> IsValidXposedModule(d.packages, names[i]) && names[i] in d.config.scopes
    ensures var run := BackupFrom(d, enabled, names);
      && run.ok && run.after == d && |run.records| == |names|
      && forall i :: 0 <= i < |names| ==> run.records[i] == RecordOf(d, enabled, names[i])
    decreases |names|
  {
    if names != [] {
      BackupOfModules(d, enabled, names[1..]);
      var rest := BackupFrom(d, enabled, names[1..]);
      var run := BackupFrom(d, enabled, names);
      assert run.records == [RecordOf(d, enabled, names[0])] + rest.records;
      forall i | 0 <= i < |names|
        ensures run.records[i] == RecordOf(d, enabled, names[i])
      {
        if i > 0 {
          assert names[1..][i - 1] == names[i];
        }
      }
    }
  }

  /** A named package that is not a module, or has no scope, makes the whole backup fail. */
  lemma {:induction false} BackupNeedsScopes(d: Daemon, enabled: set<string>, names: seq<string>, k: nat)
    requires k < |names|
    requires !(IsValidXposedModule(d.packages, names[k]) && names[k] in d.config.scopes)
    ensures !BackupFrom(d, enabled, names).ok
    decreases |names|
  {
    var m := names[0];
    var auto := GetAutoInclude(d, m);
    var got := GetModuleScope(auto.after, m);
    if k > 0 && got.value.Some? {
      assert names[1..][k - 1] == names[k];
      BackupNeedsScopes(got.after, enabled, names[1..], k - 1);
    }
  }

  /** The inner loop of the backup: the scope array of one module object. */
  method ScopeArray(scopes: seq<Scope>) returns (scopeArray: seq<ScopeItem>)
    ensures scopeArray == ItemsOf(scopes)
  {
    scopeArray := [];
    var j := 0;
    while j < |scopes|
      invariant 0 <= j <= |scopes|
      invariant scopeArray == ItemsOf(scopes[..j])
    {
      var s := scopes[j];
      assert scopes[..j + 1][..j] == scopes[..j];
      scopeArray := scopeArray + [Entry(s.packageName, s.userId)];
      j := j + 1;
    }
    assert scopes[..j] == scopes;
  }

  /** `BackupCommand.call()`: None is the RemoteException of a module without a scope. */
  method BackupCommand(svc: CLIService, installed: seq<PackageInfo>, modulesName: Option<seq<string>>)
    returns (document: Option<Document>)
    modifies svc
    ensures Backed(svc.State(), document) == Backup(old(svc.State()), installed, modulesName)
  {
    var names: seq<string>;
    if modulesName.None? {
      names := ListModules(installed);
    } else {
      names := modulesName.value;
    }
    var enabledModules := svc.EnabledModules();
    assert names == ModuleList(installed, modulesName);
    var modulesArray, ok := BackupModules(svc, enabledModules, names);
    document := if ok then Some(Document(Some(Version), Some(modulesArray))) else None;
  }

  /** The module loop of `BackupCommand.call()`: one record per name until a scope is null. */
  method BackupModules(svc: CLIService, enabledModules: set<string>, names: seq<string>)
    returns (modulesArray: seq<ModuleRecord>, ok: bool)
    modifies svc
    ensures BackupRun(svc.State(), modulesArray, ok) == BackupFrom(old(svc.State()), enabledModules, names)
  {
    modulesArray := [];
    var i := 0;
    while i < |names|
      invariant 0 <= i <= |names|
      invariant var run := BackupFrom(svc.State(), enabledModules, names[i..]);
        BackupFrom(old(svc.State()), enabledModules, names) == BackupRun(run.after, modulesArray + run.records, run.ok)
    {
      assert names[i..][1..] == names[i + 1..];
      ghost var before := svc.State();
      var one;
      one, ok := BackupModule(svc, enabledModules, names[i]);
      if !ok {
        return;
      }
      ghost var rest := BackupFrom(svc.State(), enabledModules, names[i + 1..]);
      assert BackupFrom(before, enabledModules, names[i..]) == BackupRun(rest.after, one + rest.records, rest.ok);
      assert modulesArray + (one + rest.records) == (modulesArray + one) + rest.records;
      modulesArray := modulesArray + one;
      i := i + 1;
    }
    assert names[i..] == [];
    assert modulesArray + [] == modulesArray;
    ok := true;
  }

  /** One pass of the backup loop: `getAutoInclude`, `getModuleScope`, and the module object. */
  method BackupModule(svc: CLIService, enabledModules: set<string>, name: string)
    returns (record: seq<ModuleRecord>, ok: bool)
    modifies svc
    ensures BackupRun(svc.State(), record, ok) == BackupOne(old(svc.State()), enabledModules, name)
  {
    var autoInclude := svc.GetAutoInclude(name);
    var scopes := svc.GetModuleScope(name);
    if scopes.None? {
      return [], false;
    }
    var scopeArray := ScopeArray(scopes.value);
    record := [ModuleRecord(Some(name), Some(name in enabledModules), Some(autoInclude), Some(scopeArray))];
    ok := true;
  }

  // ---------------------------------------------------------------------
  // restore
  // ---------------------------------------------------------------------

  /**
   * How `restore` ends: success, the "Unknown backup file version"
   * RemoteException, a JSONException (turned into a RemoteException), or the
   * RuntimeException for a change the service refused.
   */
  datatype RestoreStatus =
    | Restored
    | UnknownVersion
    | FormatError
    | EnableFailed(name: string)
    | DisableFailed(name: string)
    | ScopeFailed(name: string)

  datatype RestoreRun = RestoreRun(after: Daemon, status: RestoreStatus)

  /** One scope item read as the document's version demands: an object in version 2, a string with user 0 in version 1. */
  function ItemScope(version: int, item: ScopeItem): Option<Scope>
  {
    if version == Version then
      if item.Entry? then Some(Scope(item.packageName, item.userId)) else None
    else
      if item.Bare? then Some(Scope(item.packageName, 0)) else None
  }

  /** The scope list a module object asks for, or None when an item has the wrong shape. */
  function ScopesOf(version: int, items: seq<ScopeItem>): (r: Option<seq<Scope>>)
    ensures r.Some? <==> forall i :: 0 <= i < |items| ==> (if version == Version then items[i].Entry? else items[i].Bare?)
    ensures r.Some? ==> |r.value| == |items|
    ensures r.Some? ==> forall i :: 0 <= i < |items| ==>
      r.value[i].packageName == items[i].packageName && r.value[i].userId == (if version == Version then items[i].userId else 0)
  {
    if items == [] then Some([])
    else
      var init := items[..|items| - 1];
      match ScopesOf(version, init)
      case None =>
        assert !(forall i :: 0 <= i < |init| ==> (if version == Version then init[i].Entry? else init[i].Bare?));
        None
      case Some(list) =>
        match ItemScope(version, items[|items| - 1])
        case None => None
        case Some(s) =>
          assert forall i :: 0 <= i < |init| ==> init[i] == items[i];
          Some(list + [s])
  }

  /** A version 2 backup's scope array reads back as the scope it was written from. */
  lemma {:induction false} ScopesOfItems(scope: seq<Scope>)
    ensures ScopesOf(Version, ItemsOf(scope)) == Some(scope)
  {
    var items := ItemsOf(scope);
    assert forall i :: 0 <= i < |items| ==> items[i].Entry?;
    var r := ScopesOf(Version, items);
    assert r.Some?;
    assert forall i :: 0 <= i < |scope| ==> r.value[i] == scope[i];
    assert r.value == scope;
  }

  /**
   * The restore loop from the current module object on.  Objects for modules
   * outside the list are skipped; for the others: enable or disable (a refusal
   * throws), `setAutoInclude` with false when the key is absent, then
   * `setModuleScope` (a refusal throws).  A missing key is a JSONException.
   */
  function RestoreFrom(d: Daemon, version: int, records: seq<ModuleRecord>, modules: seq<string>): (r: RestoreRun)
    ensures r.status != UnknownVersion
    ensures r.after.packages == d.packages
    decreases |records|
  {
    if records == [] then RestoreRun(d, Restored)
    else
      var record := records[0];
      match record.packageName
      case None => RestoreRun(d, FormatError)
      case Some(name) =>
        if name !in modules then RestoreFrom(d, version, records[1..], modules)
        else
          var one := RestoreOne(d, version, record, name);
          if one.status != Restored then one
          else RestoreFrom(one.after, version, records[1..], modules)
  }

  /** The body of the restore loop for one listed module `name`; `Restored` means go on to the next object. */
  function RestoreOne(d: Daemon, version: int, record: ModuleRecord, name: string): RestoreRun
  {
    match record.enable
    case None => RestoreRun(d, FormatError)
    case Some(enabled) =>
      var change := if enabled then EnableModule(d, name) else DisableModule(d, name);
      if !change.value then
        RestoreRun(change.after, if enabled then EnableFailed(name) else DisableFailed(name))
      else
        var d1 := SetAutoInclude(change.after, name, record.autoInclude == Some(true));
        match record.scope
        case None => RestoreRun(d1, FormatError)
        case Some(items) =>
          match ScopesOf(version, items)
          case None => RestoreRun(d1, FormatError)
          case Some(scopes) =>
            var w := SetModuleScope(d1, name, scopes);
            if !w.value then RestoreRun(w.after, ScopeFailed(name))
            else RestoreRun(w.after, Restored)
  }

  /**
   * Restoring `pre + post` is restoring `pre` and then, only if that
   * succeeded, `post` from the state `pre` left.  So the first failing record
   * ends the command, later records are never applied, and what the earlier
   * records changed is kept (nothing is rolled back).
   */
  lemma {:induction false} RestoreSplit(d: Daemon, version: int, pre: seq<ModuleRecord>, post: seq<ModuleRecord>, modules: seq<string>)
    ensures var first := RestoreFrom(d, version, pre, modules);
      RestoreFrom(d, version, pre + post, modules)
        == if first.status == Restored then RestoreFrom(first.after, version, post, modules) else first
    decreases |pre|
  {
    if pre == [] {
      assert pre + post == post;
    } else {
      var all := pre + post;
      assert all[0] == pre[0] && all[1..] == pre[1..] + post;
      match pre[0].packageName
      case None =>
      case Some(name) =>
        if name !in modules {
          RestoreSplit(d, version, pre[1..], post, modules);
        } else {
          var one := RestoreOne(d, version, pre[0], name);
          if one.status == Restored {
            RestoreSplit(one.after, version, pre[1..], post, modules);
          }
        }
    }
  }

  /**
   * `RestoreCommand.call()` on an already decompressed and parsed document.
   * "Unknown backup file version" is reported exactly for a version other
   * than 1 and 2, and then before anything changes.
   */
  function Restore(d: Daemon, doc: Document, installed: seq<PackageInfo>, modulesName: Option<seq<string>>): (r: RestoreRun)
    ensures r.status == UnknownVersion <==> doc.version.Some? && doc.version.value != 1 && doc.version.value != Version
    ensures r.status == UnknownVersion ==> r.after == d
    ensures r.after.packages == d.packages
  {
    var modules := ModuleList(installed, modulesName);
    match doc.version
    case None => RestoreRun(d, FormatError)
    case Some(version) =>
      if version != Version && version != 1 then RestoreRun(d, UnknownVersion)
      else
        match doc.modules
        case None => RestoreRun(d, FormatError)
        case Some(records) => RestoreFrom(d, version, records, modules)
  }

  /** The configuration of package `p` as restore can change it. */
  ghost predicate SameModuleConfig(c: Config, e: Config, p: string)
  {
    && (p in c.enabled <==> p in e.enabled)
    && (p in c.autoInclude <==> p in e.autoInclude)
    && (p in c.scopes <==> p in e.scopes)
    && (p in c.scopes ==> c.scopes[p] == e.scopes[p])
  }

  /**
   * Restore never changes a module outside its module list, nor the installed
   * packages or what ConfigManager refuses.
   */
  lemma {:induction false} RestoreFromFrame(d: Daemon, version: int, records: seq<ModuleRecord>, modules: seq<string>)
    ensures var r := RestoreFrom(d, version, records, modules);
      && r.after.packages == d.packages && r.after.config.refused == d.config.refused
      && forall p :: p !in modules ==> SameModuleConfig(d.config, r.after.config, p)
    decreases |records|
  {
    if records != [] && records[0].packageName.Some? {
      var name := records[0].packageName.value;
      if name !in modules {
        RestoreFromFrame(d, version, records[1..], modules);
      } else if records[0].enable.Some? {
        var enabled := records[0].enable.value;
        var change := if enabled then EnableModule(d, name) else DisableModule(d, name);
        var d1 := SetAutoInclude(change.after, name, records[0].autoInclude == Some(true));
        if change.value && records[0].scope.Some? && ScopesOf(version, records[0].scope.value).Some? {
          var w := SetModuleScope(d1, name, ScopesOf(version, records[0].scope.value).value);
          if w.value {
            RestoreFromFrame(w.after, version, records[1..], modules);
          }
        }
      }
    }
  }

  lemma RestoreFrame(d: Daemon, doc: Document, installed: seq<PackageInfo>, modulesName: Option<seq<string>>)
    ensures var r := Restore(d, doc, installed, modulesName);
      && r.after.packages == d.packages
      && forall p :: p !in ModuleList(installed, modulesName) ==> SameModuleConfig(d.config, r.after.config, p)
  {
    if doc.version.Some? && doc.modules.Some? {
      RestoreFromFrame(d, doc.version.value, doc.modules.value, ModuleList(installed, modulesName));
    }
  }

  /** A document of any version other than 1 and 2 is rejected before anything changes. */
  lemma UnknownVersionRejected(d: Daemon, doc: Document, installed: seq<PackageInfo>, modulesName: Option<seq<string>>)
    requires doc.version.Some? && doc.version.value != 1 && doc.version.value != 2
    ensures Restore(d, doc, installed, modulesName) == RestoreRun(d, UnknownVersion)
  {
  }

  /** In a version 1 document every restored scope entry belongs to user 0. */
  lemma VersionOneUserZero(items: seq<ScopeItem>)
    requires ScopesOf(1, items).Some?
    ensures forall s :: s in ScopesOf(1, items).value ==> s.userId == 0
  {
  }

  /**
   * ConfigManager may accept the enable and refuse the scope: the restore then
   * stops with "Failed to set scope", the module stays enabled with the
   * record's auto-include flag, and its old scope is kept; nothing is rolled
   * back.
   */
  lemma ScopeRefusalKeepsEnable(d: Daemon, version: int, record: ModuleRecord, name: string, modules: seq<string>)
    requires IsValidXposedModule(d.packages, name) && name in modules && record.packageName == Some(name)
    requires record.enable == Some(true) && record.scope.Some? && ScopesOf(version, record.scope.value).Some?
    requires name !in d.config.refused.enable && name in d.config.refused.scope
    ensures var r := RestoreFrom(d, version, [record], modules);
      && r.status == ScopeFailed(name)
      && r.after.config.enabled == d.config.enabled + {name}
      && (name in r.after.config.autoInclude <==> record.autoInclude == Some(true))
      && r.after.config.scopes == d.config.scopes
  {
  }

  /** ConfigManager accepts the two changes a restore asks for a module: the enable (or disable) and the scope. */
  predicate Accepted(c: Config, name: string, enable: bool)
  {
    (if enable then name !in c.refused.enable else name !in c.refused.disable) && name !in c.refused.scope
  }

  /** Replaying the records of a backup sets each module's enabled flag, auto-include flag and scope to the backed-up ones. */
  lemma {:induction false} RestoreRecords(e: Daemon, d: Daemon, enabled: set<string>, names: seq<string>,
                                          records: seq<ModuleRecord>, modules: seq<string>)
    requires |records| == |names|
    requires forall i :: 0 <= i < |names| ==> names[i] in d.config.scopes && records[i] == RecordOf(d, enabled, names[i])
    requires forall i :: 0 <= i < |names| ==>
      names[i] in modules && IsValidXposedModule(e.packages, names[i]) && Accepted(e.config, names[i], names[i] in enabled)
    ensures var r := RestoreFrom(e, Version, records, modules);
      && r.status == Restored
      && r.after.packages == e.packages && r.after.config.refused == e.config.refused
      && (forall p :: p !in names ==> SameModuleConfig(e.config, r.after.config, p))
      && forall m :: m in names ==>
        && (m in r.after.config.enabled <==> m in enabled)
        && (m in r.after.config.autoInclude <==> m in d.config.autoInclude)
        && m in r.after.config.scopes && r.after.config.scopes[m] == d.config.scopes[m]
    decreases |names|
  {
    if names != [] {
      var m := names[0];
      var record := records[0];
      assert record == RecordOf(d, enabled, m);
      var change := if m in enabled then EnableModule(e, m) else DisableModule(e, m);
      var d1 := SetAutoInclude(change.after, m, m in d.config.autoInclude);
      ScopesOfItems(d.config.scopes[m]);
      var w := SetModuleScope(d1, m, d.config.scopes[m]);
      assert w.value;
      assert RestoreFrom(e, Version, records, modules) == RestoreFrom(w.after, Version, records[1..], modules);
      forall i | 0 <= i < |names[1..]|
        ensures names[1..][i] in d.config.scopes && records[1..][i] == RecordOf(d, enabled, names[1..][i])
        ensures names[1..][i] in modules && IsValidXposedModule(w.after.packages, names[1..][i])
          && Accepted(w.after.config, names[1..][i], names[1..][i] in enabled)
      {
        assert names[1..][i] == names[i + 1];
      }
      RestoreRecords(w.after, d, enabled, names[1..], records[1..], modules);
      var r := RestoreFrom(w.after, Version, records[1..], modules);
      forall p | p !in names
        ensures SameModuleConfig(e.config, r.after.config, p)
      {
        assert p !in names[1..];
      }
      forall x | x in names
        ensures && (x in r.after.config.enabled <==> x in enabled)
                && (x in r.after.config.autoInclude <==> x in d.config.autoInclude)
                && x in r.after.config.scopes && r.after.config.scopes[x] == d.config.scopes[x]
      {
        if x !in names[1..] {
          assert x == m;
        }
      }
    }
  }

  /**
   * Backing up valid modules that have scopes and restoring that document,
   * with the same module names, into a service that knows the same packages
   * and accepts the enable or disable and the scope of each of them, gives every named module back its enabled flag,
   * its auto-include flag and its scope, and touches no other module.
   */
  lemma BackupRestoreRoundTrip(d: Daemon, e: Daemon, installed: seq<PackageInfo>, names: seq<string>)
    requires forall i :: 0 <= i < |names| ==> IsValidXposedModule(d.packages, names[i]) && names[i] in d.config.scopes
    requires e.packages == d.packages
    requires forall i :: 0 <= i < |names| ==> Accepted(e.config, names[i], names[i] in d.config.enabled)
    ensures Backup(d, installed, Some(names)).after == d
    ensures Backup(d, installed, Some(names)).document.Some?
    ensures var r := Restore(e, Backup(d, installed, Some(names)).document.value, installed, Some(names));
      && r.status == Restored
      && (forall p :: p !in names ==> SameModuleConfig(e.config, r.after.config, p))
      && forall m :: m in names ==>
        && (m in r.after.config.enabled <==> m in d.config.enabled)
        && (m in r.after.config.autoInclude <==> m in d.config.autoInclude)
        && m in r.after.config.scopes && r.after.config.scopes[m] == d.config.scopes[m]
  {
    BackupOfModules(d, d.config.enabled, names);
    var run := BackupFrom(d, d.config.enabled, names);
    RestoreRecords(e, d, d.config.enabled, names, run.records, names);
  }

  /** The inner loop of the restore: the scope list of one module object, or the JSONException. */
  method ReadScopes(version: int, scopeArray: seq<ScopeItem>) returns (scopes: Option<seq<Scope>>)
    ensures scopes == ScopesOf(version, scopeArray)
  {
    var list: seq<Scope> := [];
    var j := 0;
    while j < |scopeArray|
      invariant 0 <= j <= |scopeArray|
      invariant ScopesOf(version, scopeArray[..j]) == Some(list)
    {
      assert scopeArray[..j + 1][..j] == scopeArray[..j];
      var item := ItemScope(version, scopeArray[j]);
      if item.None? {
        return None;
      }
      list := list + [item.value];
      j := j + 1;
    }
    assert scopeArray[..j] == scopeArray;
    scopes := Some(list);
  }

  /** `RestoreCommand.call()` once the file has been read and parsed into `doc`. */
  method RestoreCommand(svc: CLIService, doc: Document, installed: seq<PackageInfo>, modulesName: Option<seq<string>>)
    returns (status: RestoreStatus)
    modifies svc
    ensures RestoreRun(svc.State(), status) == Restore(old(svc.State()), doc, installed, modulesName)
  {
    var modules: seq<string>;
    if modulesName.None? {
      modules := ListModules(installed);
    } else {
      modules := modulesName.value;
    }
    if doc.version.None? {
      return FormatError;
    }
    var version := doc.version.value;
    if version != Version && version != 1 {
      return UnknownVersion;
    }
    if doc.modules.None? {
      return FormatError;
    }
    var jsmodules := doc.modules.value;
    var i := 0;
    while i < |jsmodules|
      invariant 0 <= i <= |jsmodules|
      invariant Restore(old(svc.State()), doc, installed, modulesName) == RestoreFrom(svc.State(), version, jsmodules[i..], modules)
    {
      var moduleObject := jsmodules[i];
      assert jsmodules[i..][1..] == jsmodules[i + 1..];
      if moduleObject.packageName.None? {
        return FormatError;
      }
      var name := moduleObject.packageName.value;
      if name !in modules {
        i := i + 1;
        continue;
      }
      status := RestoreModule(svc, version, moduleObject, name);
      if status != Restored {
        return;
      }
      i := i + 1;
    }
    status := Restored;
  }

  /** One pass of the restore loop for a listed module: enable or disable, auto-include, scope. */
  method RestoreModule(svc: CLIService, version: int, moduleObject: ModuleRecord, name: string)
    returns (status: RestoreStatus)
    modifies svc
    ensures RestoreRun(svc.State(), status) == RestoreOne(old(svc.State()), version, moduleObject, name)
  {
    if moduleObject.enable.None? {
      return FormatError;
    }
    var enabled := moduleObject.enable.value;
    if enabled {
      var ok := svc.EnableModule(name);
      if !ok {
        var _ := svc.GetLastErrorMsg();
        return EnableFailed(name);
      }
    } else {
      var ok := svc.DisableModule(name);
      if !ok {
        var _ := svc.GetLastErrorMsg();
        return DisableFailed(name);
      }
    }
    var autoInclude := false;
    if moduleObject.autoInclude.Some? {
      autoInclude := moduleObject.autoInclude.value;
    }
    svc.SetAutoInclude(name, autoInclude);
    if moduleObject.scope.None? {
      return FormatError;
    }
    var scopes := ReadScopes(version, moduleObject.scope.value);
    if scopes.None? {
      return FormatError;
    }
    var ok := svc.SetModuleScope(name, scopes.value);
    if !ok {
      var _ := svc.GetLastErrorMsg();
      return ScopeFailed(name);
    }
    status := Restored;
  }
}
