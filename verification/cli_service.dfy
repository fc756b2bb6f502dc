/**
 * The daemon's CLI service (`CLIService`): how it admits a caller, how it
 * recognises an Xposed module, and the six module operations it guards with
 * that check.  The operations are given here as pure transitions on a value
 * `Daemon`; module `DaemonService` below has the object whose methods follow
 * them.
 */
module CliService {
  import opened Scopes

  // ---------------------------------------------------------------------
  // `String.split(":")` as Java defines it
  // ---------------------------------------------------------------------

  /** The pieces between separators, empty pieces included. */
  function Pieces(s: string, sep: char): (r: seq<string>)
    ensures |r| >= 1
    ensures forall i :: 0 <= i < |r| ==> sep !in r[i]
    decreases |s|
  {
    match IndexOf(s, sep)
    case None => [s]
    case Some(k) => [s[..k]] + Pieces(s[k + 1..], sep)
  }

  /** Java's split with limit 0 drops the empty strings at the end of the list. */
  function DropTrailingEmpty(parts: seq<string>): (r: seq<string>)
    ensures r <= parts
    ensures r == [] || r[|r| - 1] != []
    ensures forall i :: |r| <= i < |parts| ==> parts[i] == []
  {
    if parts != [] && parts[|parts| - 1] == [] then DropTrailingEmpty(parts[..|parts| - 1]) else parts
  }

  /**
   * `s.split(sep)`: the input itself when the separator does not occur;
   * otherwise pieces free of the separator, the last of them non-empty.
   */
  function JavaSplit(s: string, sep: char): (r: seq<string>)
    ensures sep !in s ==> r == [s]
    ensures forall i :: 0 <= i < |r| ==> sep !in r[i]
    ensures sep in s && r != [] ==> r[|r| - 1] != []
  {
    if sep !in s then [s] else DropTrailingEmpty(Pieces(s, sep))
  }

  /** The inverse of `Pieces`. */
  function Join(parts: seq<string>, sep: char): string
    requires |parts| >= 1
  {
    if |parts| == 1 then parts[0] else parts[0] + [sep] + Join(parts[1..], sep)
  }

  function Empties(n: nat): (r: seq<string>)
    ensures |r| == n && forall i :: 0 <= i < n ==> r[i] == []
  {
    if n == 0 then [] else [[]] + Empties(n - 1)
  }

  lemma {:induction false} JoinPieces(s: string, sep: char)
    ensures Join(Pieces(s, sep), sep) == s
    decreases |s|
  {
    match IndexOf(s, sep)
    case None =>
    case Some(k) =>
      var rest := Pieces(s[k + 1..], sep);
      var parts := [s[..k]] + rest;
      assert Pieces(s, sep) == parts;
      assert parts[1..] == rest;
      JoinPieces(s[k + 1..], sep);
      assert Join(parts, sep) == s[..k] + [sep] + s[k + 1..];
      assert s == s[..k] + [sep] + s[k + 1..];
  }

  /**
   * Joining the pieces of a split gives the input back, up to the separators
   * the split dropped at its end; a split with no pieces left came from
   * nothing but separators.
   */
  lemma {:induction false} SplitJoin(s: string, sep: char)
    ensures JavaSplit(s, sep) == [] ==> s == Repeat(sep, |s|)
    ensures JavaSplit(s, sep) != [] ==> exists k: nat :: s == Join(JavaSplit(s, sep), sep) + Repeat(sep, k)
  {
    if sep in s {
      var parts := Pieces(s, sep);
      var kept := DropTrailingEmpty(parts);
      var m := |parts| - |kept|;
      assert parts == kept + Empties(m);
      JoinPieces(s, sep);
      if kept != [] {
        JoinEmpties(kept, m, sep);
      } else {
        assert parts == [[]] + Empties(m - 1);
        JoinEmpties([[]], m - 1, sep);
        assert s == Repeat(sep, m - 1);
      }
    } else {
      assert s == Join([s], sep) + Repeat(sep, 0);
    }
  }

  lemma {:induction false} JoinEmpties(parts: seq<string>, m: nat, sep: char)
    requires |parts| >= 1
    ensures Join(parts + Empties(m), sep) == Join(parts, sep) + Repeat(sep, m)
    decreases |parts|, m
  {
    if |parts| > 1 {
      assert (parts + Empties(m))[1..] == parts[1..] + Empties(m);
      JoinEmpties(parts[1..], m, sep);
    } else if m > 0 {
      assert (parts + Empties(m))[1..] == [[]] + Empties(m - 1);
      JoinEmpties([[]], m - 1, sep);
      assert Repeat(sep, m) == [sep] + Repeat(sep, m - 1);
    } else {
      assert parts + Empties(m) == parts;
    }
  }

  /** A piece followed by nothing but separators splits into that piece and empty pieces. */
  lemma {:induction false} PiecesTrailing(u: string, k: nat, sep: char)
    requires sep !in u
    ensures Pieces(u + Repeat(sep, k), sep) == [u] + Empties(k)
    decreases k
  {
    if k == 0 {
      assert u + Repeat(sep, k) == u;
    } else {
      var tail := Repeat(sep, k - 1);
      calc {
        Pieces(u + Repeat(sep, k), sep);
      == { assert Repeat(sep, k) == [sep] + tail;
           assert u + Repeat(sep, k) == u + [sep] + tail; }
        Pieces(u + [sep] + tail, sep);
      == { PiecesAfter(u, sep, tail); }
        [u] + Pieces(tail, sep);
      == { assert [] + tail == tail; PiecesTrailing([], k - 1, sep); }
        [u] + ([[]] + Empties(k - 1));
      }
    }
  }

  lemma {:induction false} PiecesAfter(a: string, sep: char, b: string)
    requires sep !in a
    ensures Pieces(a + [sep] + b, sep) == [a] + Pieces(b, sep)
  {
    var s := a + [sep] + b;
    IndexOfAfter(a, sep, b);
    assert s[..|a|] == a && s[|a| + 1..] == b;
  }

  lemma {:induction false} DropEmpties(parts: seq<string>, k: nat)
    requires parts != [] && parts[|parts| - 1] != []
    ensures DropTrailingEmpty(parts + Empties(k)) == parts
  {
    if k > 0 {
      assert Empties(k) == Empties(k - 1) + [[]];
      assert (parts + Empties(k))[..|parts| + k - 1] == parts + Empties(k - 1);
      DropEmpties(parts, k - 1);
    } else {
      assert parts + Empties(k) == parts;
    }
  }

  // ---------------------------------------------------------------------
  // Caller admission
  // ---------------------------------------------------------------------

  const CliProcessPrefix: string := "lsp-cli"

  /** `basicCheck(uid)`: only root may use the CLI service. */
  predicate BasicCheck(uid: int)
  {
    uid == 0
  }

  /**
   * `applicationStageNameValid(pid, processName)`: the name splits at ':' into
   * exactly "lsp-cli" and the build's CLI UUID (`SignInfo.CLI_UUID`, a parameter).
   */
  predicate ApplicationStageNameValid(pid: int, processName: string, cliUuid: string)
  {
    var info := JavaSplit(processName, ':');
    |info| == 2 && info[0] == CliProcessPrefix && info[1] == cliUuid
  }

  /**
   * A caller passes both checks exactly when it runs as root and its process
   * name is the announced name, possibly followed by ':' characters; the
   * shell user (uid 2000) never passes.
   */
  lemma CallerAdmitted(uid: int, pid: int, processName: string, cliUuid: string)
    ensures BasicCheck(uid) && ApplicationStageNameValid(pid, processName, cliUuid) <==>
      && uid == 0 && cliUuid != [] && ':' !in cliUuid
      && exists k: nat :: processName == AnnouncedName(cliUuid) + Repeat(':', k)
    ensures !BasicCheck(2000)
  {
    StageNameValidIff(pid, processName, cliUuid);
  }

  /** The name the client announces, `"lsp-cli:" + CLI_UUID`. */
  function AnnouncedName(cliUuid: string): string
  {
    CliProcessPrefix + ":" + cliUuid
  }

  /**
   * The names the service admits are exactly the announced name followed by any
   * number of ':' (Java's split drops the empty pieces they make), and only when
   * the UUID is non-empty and has no ':' of its own.
   */
  lemma {:induction false} StageNameValidIff(pid: int, processName: string, cliUuid: string)
    ensures ApplicationStageNameValid(pid, processName, cliUuid) <==>
      cliUuid != [] && ':' !in cliUuid &&
      exists k: nat :: processName == AnnouncedName(cliUuid) + Repeat(':', k)
  {
    if ApplicationStageNameValid(pid, processName, cliUuid) {
      var parts := Pieces(processName, ':');
      assert ':' in processName;
      var kept := DropTrailingEmpty(parts);
      var m := |parts| - 2;
      assert parts == kept + Empties(m);
      JoinPieces(processName, ':');
      JoinEmpties(kept, m, ':');
      assert Join(kept, ':') == AnnouncedName(cliUuid);
      assert processName == AnnouncedName(cliUuid) + Repeat(':', m);
    }
    if cliUuid != [] && ':' !in cliUuid && exists k: nat :: processName == AnnouncedName(cliUuid) + Repeat(':', k) {
      var k: nat :| processName == AnnouncedName(cliUuid) + Repeat(':', k);
      AnnouncedNameAdmitted(pid, cliUuid, k);
    }
  }

  /** The client's own name passes the check whenever the UUID is non-empty and has no ':'. */
  lemma {:induction false} AnnouncedNameAdmitted(pid: int, cliUuid: string, k: nat)
    requires cliUuid != [] && ':' !in cliUuid
    ensures ApplicationStageNameValid(pid, AnnouncedName(cliUuid) + Repeat(':', k), cliUuid)
  {
    var name := AnnouncedName(cliUuid) + Repeat(':', k);
    assert name == CliProcessPrefix + [':'] + (cliUuid + Repeat(':', k));
    PiecesAfter(CliProcessPrefix, ':', cliUuid + Repeat(':', k));
    PiecesTrailing(cliUuid, k, ':');
    assert Pieces(name, ':') == [CliProcessPrefix, cliUuid] + Empties(k);
    DropEmpties([CliProcessPrefix, cliUuid], k);
    assert name[|CliProcessPrefix|] == ':';
  }

  // ---------------------------------------------------------------------
  // Module recognition
  // ---------------------------------------------------------------------

  /** The part of `ApplicationInfo` that matters here: its metadata keys, or null. */
  datatype AppInfo = AppInfo(metaData: Option<set<string>>)

  const ModuleMarker: string := "xposedmodule"

  /** The marker both the daemon and the client's package listings look for. */
  predicate HasModuleMarker(info: AppInfo)
  {
    info.metaData.Some? && ModuleMarker in info.metaData.value
  }

  /**
   * `isValidXposedModule(pkg)`: `PackageService.getApplicationInfo(pkg, …, 0)`
   * (user 0, given as a map; a missing key is a null result) carries the marker.
   */
  predicate IsValidXposedModule(packages: map<string, AppInfo>, packageName: string)
  {
    packageName in packages && HasModuleMarker(packages[packageName])
  }

  // ---------------------------------------------------------------------
  // ConfigManager, as far as the CLI service uses it
  // ---------------------------------------------------------------------

  /**
   * The modules for which ConfigManager answers false, one set per change:
   * `enableModule`, `disableModule` and `setModuleScope` may each refuse a
   * module independently of the other two.
   */
  datatype Refusals = Refusals(enable: set<string>, disable: set<string>, scope: set<string>)

  /**
   * ConfigManager's state for the CLI: enabled modules, stored scopes and
   * auto-include flags, and which changes it refuses; ConfigManager itself
   * is not part of this model.
   */
  datatype Config = Config(
    enabled: set<string>,
    scopes: map<string, seq<Scope>>,
    autoInclude: set<string>,
    refused: Refusals)

  datatype Change = Change(config: Config, ok: bool)

  function ConfigEnable(c: Config, pkg: string): Change
  {
    if pkg in c.refused.enable then Change(c, false) else Change(c.(enabled := c.enabled + {pkg}), true)
  }

  function ConfigDisable(c: Config, pkg: string): Change
  {
    if pkg in c.refused.disable then Change(c, false) else Change(c.(enabled := c.enabled - {pkg}), true)
  }

  function ConfigSetScope(c: Config, pkg: string, scope: seq<Scope>): Change
  {
    if pkg in c.refused.scope then Change(c, false) else Change(c.(scopes := c.scopes[pkg := scope]), true)
  }

  function ConfigGetScope(c: Config, pkg: string): Option<seq<Scope>>
  {
    if pkg in c.scopes then Some(c.scopes[pkg]) else None
  }

  function ConfigSetAutoInclude(c: Config, pkg: string, add: bool): Config
  {
    c.(autoInclude := if add then c.autoInclude + {pkg} else c.autoInclude - {pkg})
  }

  // ---------------------------------------------------------------------
  // The guarded operations as transitions of the whole service
  // ---------------------------------------------------------------------

  /** The service's observable state: installed packages, configuration and `sLastMsg`. */
  datatype Daemon = Daemon(packages: map<string, AppInfo>, config: Config, lastMsg: Option<string>)

  /** A reply together with the state the call leaves behind. */
  datatype Answer<T> = Answer(after: Daemon, value: T)

  function NotValidMessage(pkg: string): string
  {
    "Module " + pkg + " is not a valid xposed module"
  }

  /** The guard's failure path: record the message, touch nothing else. */
  function Reject(d: Daemon, pkg: string): Daemon
  {
    d.(lastMsg := Some(NotValidMessage(pkg)))
  }

  function EnableModule(d: Daemon, pkg: string): Answer<bool>
  {
    if !IsValidXposedModule(d.packages, pkg) then Answer(Reject(d, pkg), false)
    else
      var ch := ConfigEnable(d.config, pkg);
      Answer(d.(config := ch.config), ch.ok)
  }

  function DisableModule(d: Daemon, pkg: string): Answer<bool>
  {
    if !IsValidXposedModule(d.packages, pkg) then Answer(Reject(d, pkg), false)
    else
      var ch := ConfigDisable(d.config, pkg);
      Answer(d.(config := ch.config), ch.ok)
  }

  function SetModuleScope(d: Daemon, pkg: string, scope: seq<Scope>): Answer<bool>
  {
    if !IsValidXposedModule(d.packages, pkg) then Answer(Reject(d, pkg), false)
    else
      var ch := ConfigSetScope(d.config, pkg, scope);
      Answer(d.(config := ch.config), ch.ok)
  }

  function GetModuleScope(d: Daemon, pkg: string): Answer<Option<seq<Scope>>>
  {
    if !IsValidXposedModule(d.packages, pkg) then Answer(Reject(d, pkg), None)
    else Answer(d, ConfigGetScope(d.config, pkg))
  }

  function GetAutoInclude(d: Daemon, pkg: string): Answer<bool>
  {
    if !IsValidXposedModule(d.packages, pkg) then Answer(Reject(d, pkg), false)
    else Answer(d, pkg in d.config.autoInclude)
  }

  function SetAutoInclude(d: Daemon, pkg: string, add: bool): Daemon
  {
    if !IsValidXposedModule(d.packages, pkg) then Reject(d, pkg)
    else d.(config := ConfigSetAutoInclude(d.config, pkg, add))
  }

  /**
   * For a package that is not a valid module every guarded operation records
   * exactly "Module <pkg> is not a valid xposed module", leaves the
   * configuration alone and answers false, null or nothing.
   */
  lemma InvalidModuleRejected(d: Daemon, pkg: string, scope: seq<Scope>, add: bool)
    requires !IsValidXposedModule(d.packages, pkg)
    ensures var rejected := d.(lastMsg := Some("Module " + pkg + " is not a valid xposed module"));
      && EnableModule(d, pkg) == Answer(rejected, false)
      && DisableModule(d, pkg) == Answer(rejected, false)
      && SetModuleScope(d, pkg, scope) == Answer(rejected, false)
      && GetModuleScope(d, pkg) == Answer(rejected, None)
      && GetAutoInclude(d, pkg) == Answer(rejected, false)
      && SetAutoInclude(d, pkg, add) == rejected
  {
  }

  /**
   * A valid module's operations never write `sLastMsg`, so an earlier
   * rejection stays readable after later successful calls.
   */
  lemma ValidModuleKeepsLastMsg(d: Daemon, pkg: string, scope: seq<Scope>, add: bool)
    requires IsValidXposedModule(d.packages, pkg)
    ensures EnableModule(d, pkg).after.lastMsg == d.lastMsg
    ensures DisableModule(d, pkg).after.lastMsg == d.lastMsg
    ensures SetModuleScope(d, pkg, scope).after.lastMsg == d.lastMsg
    ensures GetModuleScope(d, pkg).after == d
    ensures GetAutoInclude(d, pkg).after == d
    ensures SetAutoInclude(d, pkg, add).lastMsg == d.lastMsg
    ensures EnableModule(d, pkg).after.packages == d.packages
  {
  }

  /** A rejection followed by a successful call on a valid module still reports the rejection. */
  lemma StaleLastMsg(d: Daemon, bad: string, good: string)
    requires !IsValidXposedModule(d.packages, bad)
    requires IsValidXposedModule(d.packages, good) && good !in d.config.refused.enable
    ensures var d1 := EnableModule(d, bad).after;
      var r := EnableModule(d1, good);
      r.value && r.after.lastMsg == Some(NotValidMessage(bad))
  {
  }

  /** `getAutoInclude` answers false for a non-module, as for a module with the flag off. */
  lemma AutoIncludeAmbiguous(d: Daemon, bad: string, good: string)
    requires !IsValidXposedModule(d.packages, bad)
    requires IsValidXposedModule(d.packages, good) && good !in d.config.autoInclude
    ensures GetAutoInclude(d, bad).value == GetAutoInclude(d, good).value == false
  {
  }
}

/** The service object: `sLastMsg` is its one field and the guarded methods write it. */
module DaemonService {
  import opened Scopes
  import opened CliService

  class CLIService {
    var sLastMsg: Option<string>
    /** `ConfigManager.getInstance()`'s state. */
    var config: Config
    /** What `PackageService.getApplicationInfo` answers for user 0. */
    const packages: map<string, AppInfo>

    ghost function State(): Daemon
      reads this
    {
      Daemon(packages, config, sLastMsg)
    }

    constructor (packages: map<string, AppInfo>, config: Config)
      ensures State() == Daemon(packages, config, None)
    {
      this.packages := packages;
      this.config := config;
      sLastMsg := None;
    }

    method EnableModule(packageName: string) returns (ok: bool)
      modifies this
      ensures Answer(State(), ok) == CliService.EnableModule(old(State()), packageName)
    {
      if !IsValidXposedModule(packages, packageName) {
        sLastMsg := Some(NotValidMessage(packageName));
        return false;
      }
      var ch := ConfigEnable(config, packageName);
      config := ch.config;
      ok := ch.ok;
    }

    method DisableModule(packageName: string) returns (ok: bool)
      modifies this
      ensures Answer(State(), ok) == CliService.DisableModule(old(State()), packageName)
    {
      if !IsValidXposedModule(packages, packageName) {
        sLastMsg := Some(NotValidMessage(packageName));
        return false;
      }
      var ch := ConfigDisable(config, packageName);
      config := ch.config;
      ok := ch.ok;
    }

    method SetModuleScope(packageName: string, scope: seq<Scope>) returns (ok: bool)
      modifies this
      ensures Answer(State(), ok) == CliService.SetModuleScope(old(State()), packageName, scope)
    {
      if !IsValidXposedModule(packages, packageName) {
        sLastMsg := Some(NotValidMessage(packageName));
        return false;
      }
      var ch := ConfigSetScope(config, packageName, scope);
      config := ch.config;
      ok := ch.ok;
    }

    method GetModuleScope(packageName: string) returns (scope: Option<seq<Scope>>)
      modifies this
      ensures Answer(State(), scope) == CliService.GetModuleScope(old(State()), packageName)
    {
      if !IsValidXposedModule(packages, packageName) {
        sLastMsg := Some(NotValidMessage(packageName));
        return None;
      }
      scope := ConfigGetScope(config, packageName);
    }

    method GetAutoInclude(packageName: string) returns (autoInclude: bool)
      modifies this
      ensures Answer(State(), autoInclude) == CliService.GetAutoInclude(old(State()), packageName)
    {
      if !IsValidXposedModule(packages, packageName) {
        sLastMsg := Some(NotValidMessage(packageName));
        return false;
      }
      autoInclude := packageName in config.autoInclude;
    }

    method SetAutoInclude(packageName: string, add: bool)
      modifies this
      ensures State() == CliService.SetAutoInclude(old(State()), packageName, add)
    {
      if !IsValidXposedModule(packages, packageName) {
        sLastMsg := Some(NotValidMessage(packageName));
        return;
      }
      config := ConfigSetAutoInclude(config, packageName, add);
    }

    /** `enabledModules()`. */
    method EnabledModules() returns (modules: set<string>)
      ensures modules == config.enabled
    {
      modules := config.enabled;
    }

    /** `getLastErrorMsg()`: the last rejection, or null; it changes nothing. */
    method GetLastErrorMsg() returns (msg: Option<string>)
      ensures msg == State().lastMsg
    {
      msg := sLastMsg;
    }
  }
}
