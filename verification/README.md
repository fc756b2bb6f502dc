# LSPosed CLI, CLI service, OAT store rewrite and ELF symbol lookup in Dafny

This project models four parts of LSPosed and proves properties of each.

- **The `lsposed` command-line client** (`Main.java`). This covers the
  handshake that obtains a CLI binder from the daemon (PIN precedence, one
  interactive retry, the two authentication messages, the cached manager).
  It also covers the commands `modules set`, `scope set`, `backup` and
  `restore`. Each command is a specification
  function on the service state plus a method that runs the command's own
  loop against the service object. The `pkg/userId` scope converter and the
  `scope ls` line format are modelled too.
- **The daemon's CLI service** (`CLIService.java`). This covers caller
  admission (`basicCheck`, and `applicationStageNameValid` with Java's
  `String.split` semantics) and module recognition (`isValidXposedModule`).
  It also covers the six guarded operations and `sLastMsg`, the one field
  they write when they reject a package.
- **The dex2oat hook** (`oat_hook.cpp`, `oat.cpp`). `ModifyStoreInPlace`
  removes `" --inline-max-code-units=0"` from an OAT header's key-value
  store. Where the second byte after the pattern lies inside the store and
  is zero, it overwrites the pattern with zeros.
  Otherwise it shifts the rest of the store down, and the size hooks then
  report the shrunken store. The header is a byte array. Its 32-bit size
  field sits at offset 68, little-endian, and the store starts at offset 72.
- **`ElfImg`** (`elf_util.cpp`). This covers the section scan of `parse` and
  the first-PROGBITS bias rule. It covers the SysV and GNU hash lookups, each
  walking its chain. It covers the `.symtab` index as an insertion-ordered
  multimap, with `LinearLookup`, `LinearRangeLookup` and `PrefixLookupFirst`.
  It covers the lookup order of `getSymbOffset` and how `findModuleBase`
  picks a mapping from the process's memory map.

## Model

Source paths are relative to the repository root.

| member | source | states |
|---|---|---|
| `Scopes.IndexOf` | daemon/src/main/java/org/lsposed/lspd/cli/Main.java:281 | the first position of the separator, None exactly when it does not occur |
| `ScopeConverter.ParseInt` | daemon/src/main/java/org/lsposed/lspd/cli/Main.java:282 | `Integer.parseInt`: an accepted text starts with a sign or a digit, and its value fits a Java `int` |
| `ScopeConverter.ParseIntSigned` | daemon/src/main/java/org/lsposed/lspd/cli/Main.java:282 | a sign (none, "+" or "-") followed by digits parses to the digits' decimal value, negated after "-", when that fits a Java `int`, and is rejected otherwise |
| `ScopeConverter.ParseIntShape` | daemon/src/main/java/org/lsposed/lspd/cli/Main.java:282 | every accepted text is such a sign followed by at least one digit |
| `ScopeConverter.LeadingZero` | daemon/src/main/java/org/lsposed/lspd/cli/Main.java:282 | a leading zero does not change the value of a run of digits |
| `ScopeConverter.NatToString` | daemon/src/main/java/org/lsposed/lspd/cli/Main.java:320 | the decimal digits printed for a user id read back as that number |
| `ScopeConverter.ParseIntToString` | daemon/src/main/java/org/lsposed/lspd/cli/Main.java:282 | every Java `int` printed in decimal parses back to itself |
| `ScopeConverter.Convert` | daemon/src/main/java/org/lsposed/lspd/cli/Main.java:280-283 | `convert` cuts at the first '/': no slash is an error; success gives the text before it as the package and the parsed rest as the user id; it succeeds exactly when the rest parses |
| `ScopeConverter.ConvertFormat` | daemon/src/main/java/org/lsposed/lspd/cli/Main.java:320 | a line `scope ls` prints (package without '/') converts back to the same scope entry |
| `ScopeConverter.Format` | daemon/src/main/java/org/lsposed/lspd/cli/Main.java:320 | a `scope ls` line is the package, a slash, and text that parses back to the user id |
| `ScopeConverter.FormatConvert` | daemon/src/main/java/org/lsposed/lspd/cli/Main.java:280-283 | every accepted entry prints to a line that converts back to the same entry |
| `CliService.Pieces` | daemon/src/main/java/org/lsposed/lspd/service/CLIService.java:68 | the pieces between ':' separators; none of them holds a separator |
| `CliService.DropTrailingEmpty` | daemon/src/main/java/org/lsposed/lspd/service/CLIService.java:68 | Java's split drops exactly the trailing empty pieces: a prefix of the pieces whose last piece is non-empty |
| `CliService.JavaSplit` | daemon/src/main/java/org/lsposed/lspd/service/CLIService.java:68 | `split(":")`: the name itself when it has no ':'; otherwise pieces without ':', the last one non-empty |
| `CliService.SplitJoin` | daemon/src/main/java/org/lsposed/lspd/service/CLIService.java:68 | joining the split pieces gives the name back up to the trailing ':' the split dropped; no pieces means the name was only ':' |
| `CliService.JoinPieces` | daemon/src/main/java/org/lsposed/lspd/service/CLIService.java:68 | joining the split pieces with the separator gives back the name |
| `CliService.StageNameValidIff` | daemon/src/main/java/org/lsposed/lspd/service/CLIService.java:67-77 | the process names admitted are exactly "lsp-cli:" + UUID followed by any number of ':', and only when the UUID is non-empty and has no ':' |
| `CliService.AnnouncedNameAdmitted` | daemon/src/main/java/org/lsposed/lspd/cli/Main.java:749 | the name the client announces passes the daemon's check |
| `CliService.CallerAdmitted` | daemon/src/main/java/org/lsposed/lspd/service/CLIService.java:63-77 | `basicCheck` and `applicationStageNameValid` together admit exactly root callers whose name is "lsp-cli:" + UUID followed by any number of ':'; the shell uid 2000 never passes |
| `Snapshot.MarkedModulesValid` | daemon/src/main/java/org/lsposed/lspd/service/CLIService.java:79-83 | a package the client lists as a module (metadata has "xposedmodule") is one `isValidXposedModule` accepts, when both see the same application info |
| `CliService.InvalidModuleRejected` | daemon/src/main/java/org/lsposed/lspd/service/CLIService.java:121-210 | for a non-module every guarded operation records "Module <pkg> is not a valid xposed module", answers false or null, and changes nothing else |
| `CliService.ValidModuleKeepsLastMsg` | daemon/src/main/java/org/lsposed/lspd/service/CLIService.java:121-210 | the operations on a valid module never write `sLastMsg`; the two getters change nothing |
| `CliService.StaleLastMsg` | daemon/src/main/java/org/lsposed/lspd/service/CLIService.java:189-192 | after a rejection, a successful enable of a valid module (one ConfigManager lets be enabled) still leaves the old rejection as the last error |
| `CliService.AutoIncludeAmbiguous` | daemon/src/main/java/org/lsposed/lspd/service/CLIService.java:195-201 | `getAutoInclude` answers false both for a non-module and for a module with the flag off |
| `DaemonService.CLIService.constructor` | daemon/src/main/java/org/lsposed/lspd/service/CLIService.java:48 | the service starts with no last error message |
| `DaemonService.CLIService.EnableModule` | daemon/src/main/java/org/lsposed/lspd/service/CLIService.java:121-127 | the new state and the answer are `CliService.EnableModule` of the old state |
| `DaemonService.CLIService.DisableModule` | daemon/src/main/java/org/lsposed/lspd/service/CLIService.java:150-156 | the new state and the answer are `CliService.DisableModule` of the old state |
| `DaemonService.CLIService.SetModuleScope` | daemon/src/main/java/org/lsposed/lspd/service/CLIService.java:130-136 | the new state and the answer are `CliService.SetModuleScope` of the old state |
| `DaemonService.CLIService.GetModuleScope` | daemon/src/main/java/org/lsposed/lspd/service/CLIService.java:139-147 | the stored scope of a valid module, else null and the rejection message |
| `DaemonService.CLIService.GetAutoInclude` | daemon/src/main/java/org/lsposed/lspd/service/CLIService.java:195-201 | the auto-include flag of a valid module, else false and the rejection message |
| `DaemonService.CLIService.SetAutoInclude` | daemon/src/main/java/org/lsposed/lspd/service/CLIService.java:204-210 | sets or clears the flag of a valid module, else only records the rejection |
| `DaemonService.CLIService.EnabledModules` | daemon/src/main/java/org/lsposed/lspd/service/CLIService.java:116-118 | the enabled modules, with nothing changed |
| `DaemonService.CLIService.GetLastErrorMsg` | daemon/src/main/java/org/lsposed/lspd/service/CLIService.java:189-192 | the last rejection message, or null, with nothing changed |
| `Handshake.Connect` | daemon/src/main/java/org/lsposed/lspd/cli/Main.java:731-794 | transport failures (no activity service, a failed transaction, an exception in the reply, no service binder) come before any PIN is sent; the first request carries --pin, else LSPOSED_CLI_PIN; the prompt appears exactly when no PIN was resolved, the first request was refused and a console exists; a second request sends exactly the typed PIN; every request but the last was refused; success is a granted last request; a request that throws ends the handshake with its RemoteException, before or after the prompt; "required" versus "failed" depends only on whether a PIN was given; the final `this.pin` |
| `Handshake.RejectedPromptGivesGuidance` | daemon/src/main/java/org/lsposed/lspd/cli/Main.java:775-788 | a PIN typed at the prompt and rejected still ends in the "Authentication required" guidance |
| `Handshake.Main.constructor` | daemon/src/main/java/org/lsposed/lspd/cli/Main.java:682-683 | starts with the --pin option and no cached manager |
| `Handshake.Main.RequestCliBinder` | daemon/src/main/java/org/lsposed/lspd/cli/Main.java:765 | the daemon appends a binder to the list exactly when it accepts the PIN, and the call throws exactly when the daemon's answer is an exception |
| `Handshake.Main.ConnectToService` | daemon/src/main/java/org/lsposed/lspd/cli/Main.java:731-794 | outcome, requests, prompt and the new `this.pin` are those of `Connect` |
| `Handshake.Main.GetManager` | daemon/src/main/java/org/lsposed/lspd/cli/Main.java:715-729 | a cached handle is returned unchanged; otherwise one handshake, whose handle is cached, or the NO_DAEMON exit with its exception, a RemoteException from the handshake's requests included |
| `ModuleCommands.SetModulesFrame` | daemon/src/main/java/org/lsposed/lspd/cli/Main.java:221-258 | `modules set` changes only the enabled set, and only for listed modules |
| `ModuleCommands.SetModules` | daemon/src/main/java/org/lsposed/lspd/cli/Main.java:221-258 | an early stop never prints the reboot notice, EMPTY_SCOPE only happens for -e, and a reboot notice already due survives a completed run |
| `ModuleCommands.SetModulesCompleted` | daemon/src/main/java/org/lsposed/lspd/cli/Main.java:225-252 | on success every listed module with a scope is enabled (-e) or disabled (-d), and when enabling each such scope had at least two entries |
| `ModuleCommands.SetModulesReboot` | daemon/src/main/java/org/lsposed/lspd/cli/Main.java:249-255 | on success "Reboot is required" is printed exactly when some listed scope contains "android" |
| `ModuleCommands.SetModulesStopped` | daemon/src/main/java/org/lsposed/lspd/cli/Main.java:232-248 | an early stop happens at a module with a scope: EMPTY_SCOPE exactly for an enable with fewer than two entries, ENABLE_DISABLE for a change ConfigManager refuses (the enable for -e, the disable for -d); earlier modules keep their change, nothing else changes, and no reboot notice is printed |
| `ModuleCommands.SetModulesCommand` | daemon/src/main/java/org/lsposed/lspd/cli/Main.java:221-258 | the new service state, status and reboot notice are those of `SetModules` |
| `ModuleCommands.FirstInvalid` | daemon/src/main/java/org/lsposed/lspd/cli/Main.java:373-381 | the first entry the validator rejects; None exactly when all are valid |
| `ModuleCommands.Without` | daemon/src/main/java/org/lsposed/lspd/cli/Main.java:412 | `removeIf` keeps exactly the entries other than the removed one |
| `ModuleCommands.RemoveEachKeepsRest` | daemon/src/main/java/org/lsposed/lspd/cli/Main.java:405-414 | removing entry by entry equals keeping, in order, the entries that match no requested one |
| `ModuleCommands.KeepNotInAppend` | daemon/src/main/java/org/lsposed/lspd/cli/Main.java:412 | removal distributes over concatenation |
| `ModuleCommands.AppendThenRemove` | daemon/src/main/java/org/lsposed/lspd/cli/Main.java:405-414 | `--append` of new entries followed by `--remove` of the same entries restores the scope, in order |
| `ModuleCommands.InvalidEntryChangesNothing` | daemon/src/main/java/org/lsposed/lspd/cli/Main.java:373-381 | without --ignore an invalid entry throws before any write, and the service state is unchanged |
| `ModuleCommands.SetScope` | daemon/src/main/java/org/lsposed/lspd/cli/Main.java:353-426 | `setModuleScope` is called exactly when the command ends in success or in the failed write; an invalid-entry stop names a requested entry the validator rejects, happens only without --ignore and prints no reboot notice; the installed packages never change |
| `ModuleCommands.ScopeWritten` | daemon/src/main/java/org/lsposed/lspd/cli/Main.java:388-424 | the list written: the requested entries (--set), the current scope plus every entry with duplicates kept (--append), or the current scope without the entries (--remove), each followed by what the module check adds |
| `ModuleCommands.ScopeAutoDisable` | daemon/src/main/java/org/lsposed/lspd/cli/Main.java:393-398 | after a successful write the scope is replaced; with fewer than two entries `disableModule` is called and its answer ignored, so the module ends disabled unless ConfigManager refuses the disable, in which case the enabled set is unchanged; with two or more the enabled set is unchanged; a failed write changes nothing |
| `ModuleCommands.WriteScopeEffect` | daemon/src/main/java/org/lsposed/lspd/cli/Main.java:418-423 | one write: on success the scope is replaced and a short list disables the module unless ConfigManager refuses the disable; otherwise the configuration is unchanged |
| `ModuleCommands.ScopeRebootRule` | daemon/src/main/java/org/lsposed/lspd/cli/Main.java:363-387 | once validation passed, the reboot notice is printed exactly when a valid entry is "android" or, for --set, "android" was in the old scope |
| `ModuleCommands.SetScopeCommand` | daemon/src/main/java/org/lsposed/lspd/cli/Main.java:353-426 | the new service state, status, reboot notice and written list are those of `SetScope` |
| `ModuleCommands.CheckEntries` | daemon/src/main/java/org/lsposed/lspd/cli/Main.java:373-381 | the first invalid entry unless --ignore, and whether a valid entry names "android" |
| `ModuleCommands.EditScope` | daemon/src/main/java/org/lsposed/lspd/cli/Main.java:405-414 | the current scope with every entry appended, or with each entry removed in turn |
| `ModuleCommands.WriteScopeCommand` | daemon/src/main/java/org/lsposed/lspd/cli/Main.java:418-423 | the new state and status are those of `WriteScope` |
| `Snapshot.MarkedModules` | daemon/src/main/java/org/lsposed/lspd/cli/Main.java:504-515 | exactly the installed packages whose metadata carries "xposedmodule" |
| `Snapshot.ListModules` | daemon/src/main/java/org/lsposed/lspd/cli/Main.java:597-609 | the listing loop yields `MarkedModules` |
| `Snapshot.ItemsOf` | daemon/src/main/java/org/lsposed/lspd/cli/Main.java:533-540 | one `{package, userId}` object per scope entry, in order |
| `Snapshot.BackupOfModules` | daemon/src/main/java/org/lsposed/lspd/cli/Main.java:526-542 | when every named module has a scope, the backup has one record per name, in order, and the state is unchanged |
| `Snapshot.BackupNeedsScopes` | daemon/src/main/java/org/lsposed/lspd/cli/Main.java:532-534 | a named package that is not a module, or has no scope, makes the whole backup fail |
| `Snapshot.BackupFrom` | daemon/src/main/java/org/lsposed/lspd/cli/Main.java:526-542 | the loop leaves configuration and packages alone; when it completes it has one record per name, in order, with that name and its enabled flag |
| `Snapshot.Backup` | daemon/src/main/java/org/lsposed/lspd/cli/Main.java:501-554 | backup leaves configuration and packages alone; a written document has version 2 and one record per listed module, in order, with its enabled flag |
| `Snapshot.ScopeArray` | daemon/src/main/java/org/lsposed/lspd/cli/Main.java:533-540 | the inner loop builds `ItemsOf` |
| `Snapshot.BackupCommand` | daemon/src/main/java/org/lsposed/lspd/cli/Main.java:501-554 | the document and the new state are those of `Backup` |
| `Snapshot.BackupModules` | daemon/src/main/java/org/lsposed/lspd/cli/Main.java:526-542 | the module loop builds the records of `BackupFrom` |
| `Snapshot.BackupModule` | daemon/src/main/java/org/lsposed/lspd/cli/Main.java:527-541 | one pass of the module loop is `BackupOne` |
| `Snapshot.ScopesOf` | daemon/src/main/java/org/lsposed/lspd/cli/Main.java:642-649 | a scope list exists exactly when every item has the shape its version asks for; it has one entry per item |
| `Snapshot.ScopesOfItems` | daemon/src/main/java/org/lsposed/lspd/cli/Main.java:642-649 | a version 2 scope array reads back as the scope it was written from |
| `Snapshot.RestoreSplit` | daemon/src/main/java/org/lsposed/lspd/cli/Main.java:617-654 | restore runs record by record; the first failure ends it and keeps what earlier records changed |
| `Snapshot.RestoreFrom` | daemon/src/main/java/org/lsposed/lspd/cli/Main.java:617-654 | the loop never reports an unknown version and never changes the installed packages |
| `Snapshot.Restore` | daemon/src/main/java/org/lsposed/lspd/cli/Main.java:611-656 | "Unknown backup file version" exactly for a version other than 1 and 2, and then with nothing changed; the installed packages never change |
| `Snapshot.ScopeRefusalKeepsEnable` | daemon/src/main/java/org/lsposed/lspd/cli/Main.java:622-653 | when ConfigManager accepts the enable but refuses the scope, restore stops with "Failed to set scope" and the module stays enabled with the record's auto-include flag and its old scope |
| `Snapshot.RestoreFromFrame` | daemon/src/main/java/org/lsposed/lspd/cli/Main.java:617-654 | restore changes only listed modules, and only their enabled flag, auto-include flag and scope |
| `Snapshot.RestoreFrame` | daemon/src/main/java/org/lsposed/lspd/cli/Main.java:611-660 | the same frame for the whole command |
| `Snapshot.UnknownVersionRejected` | daemon/src/main/java/org/lsposed/lspd/cli/Main.java:614-656 | a version other than 1 or 2 is rejected before anything changes |
| `Snapshot.VersionOneUserZero` | daemon/src/main/java/org/lsposed/lspd/cli/Main.java:647 | every entry restored from a version 1 document belongs to user 0 |
| `Snapshot.RestoreRecords` | daemon/src/main/java/org/lsposed/lspd/cli/Main.java:617-654 | replaying a backup's records sets each module's enabled flag, auto-include flag and scope to the backed-up ones |
| `Snapshot.BackupRestoreRoundTrip` | daemon/src/main/java/org/lsposed/lspd/cli/Main.java:501-663 | backup leaves the state unchanged, and restoring its document on a service with the same packages reproduces every backed-up module's configuration, when ConfigManager accepts each module's enable or disable and its scope |
| `Snapshot.ReadScopes` | daemon/src/main/java/org/lsposed/lspd/cli/Main.java:641-649 | the inner loop yields `ScopesOf` |
| `Snapshot.RestoreCommand` | daemon/src/main/java/org/lsposed/lspd/cli/Main.java:575-663 | the new state and status are those of `Restore` |
| `Snapshot.RestoreModule` | daemon/src/main/java/org/lsposed/lspd/cli/Main.java:623-653 | one pass of the restore loop is `RestoreOne` |
| `OatStore.WrapFits` | dex2oat/src/main/cpp/oat_hook.cpp:85 | unsigned 32-bit arithmetic leaves a value that fits unchanged |
| `OatStore.StoreU32` | dex2oat/src/main/cpp/oat.cpp:13-15 | a `uint32_t` store writes four bytes |
| `OatStore.LoadStoreU32` | dex2oat/src/main/cpp/oat.cpp:5-15 | reading back a stored size gives the size |
| `OatStore.StoreLoadU32` | dex2oat/src/main/cpp/oat.cpp:5-15 | storing a size read from four bytes gives back those bytes |
| `OatStore.SearchFrom` | dex2oat/src/main/cpp/oat_hook.cpp:30-36 | `std::search`: the first occurrence of the pattern, or none anywhere |
| `OatStore.Rewrite` | dex2oat/src/main/cpp/oat_hook.cpp:20-78 | the store keeps its length; without the pattern nothing changes; the result says "resized" exactly when the pattern is found without a zero byte after the byte that follows it |
| `OatStore.ZeroFilledAt` | dex2oat/src/main/cpp/oat_hook.cpp:53-57 | with padding, the occurrence becomes zeros and every other byte stays |
| `OatStore.ShiftedAt` | dex2oat/src/main/cpp/oat_hook.cpp:59-77 | without padding, the bytes after the occurrence move down by 26 and the last 26 bytes stay |
| `OatStore.ShrunkStoreIsDeletion` | dex2oat/src/main/cpp/oat_hook.cpp:59-77 | the first size-26 bytes of a resized store are the store with the occurrence deleted |
| `OatStore.ZeroFillRemovesOccurrence` | dex2oat/src/main/cpp/oat_hook.cpp:53-57 | after zero-filling, the pattern no longer occurs where it was found |
| `OatStore.SearchStore` | dex2oat/src/main/cpp/oat_hook.cpp:30-36 | the search loop over memory finds `Search`'s position |
| `OatStore.ZeroFill` | dex2oat/src/main/cpp/oat_hook.cpp:56 | `memset` zeroes exactly its range |
| `OatStore.ShiftDown` | dex2oat/src/main/cpp/oat_hook.cpp:64-71 | `memmove` down by the gap moves exactly its range |
| `OatStore.ModifyStoreInPlace` | dex2oat/src/main/cpp/oat_hook.cpp:20-79 | a null store changes nothing and answers false; otherwise the store's bytes become `Rewrite`'s, memory outside it is unchanged, and the answer is `Rewrite`'s resized flag |
| `OatStore.RemoveFound` | dex2oat/src/main/cpp/oat_hook.cpp:41-78 | the zero-fill or shift once the pattern was found leaves `Rewrite`'s bytes |
| `OatStore.ZeroFilledStore` | dex2oat/src/main/cpp/oat_hook.cpp:53-57 | the memory after the `memset` branch is the rewritten store spliced into the old memory |
| `OatStore.ShiftedStore` | dex2oat/src/main/cpp/oat_hook.cpp:59-77 | the memory after the `memmove` branch is the rewritten store spliced into the old memory |
| `OatStore.OatHeader.constructor` | dex2oat/src/main/cpp/include/oat.h:90-113 | a header over its bytes |
| `OatStore.OatHeader.GetKeyValueStoreSize` | dex2oat/src/main/cpp/oat.cpp:5-7 | the little-endian 32-bit field at offset 68 |
| `OatStore.OatHeader.GetKeyValueStore` | dex2oat/src/main/cpp/oat.cpp:9-11 | the store starts right after the size field |
| `OatStore.OatHeader.SetKeyValueStoreSize` | dex2oat/src/main/cpp/oat.cpp:13-15 | writes the size field and no other byte |
| `OatStore.Hooks.constructor` | dex2oat/src/main/cpp/oat_hook.cpp:18 | `store_resized` starts false |
| `OatStore.Hooks.GetKeyValueStoreSize` | dex2oat/src/main/cpp/oat_hook.cpp:81-88 | the field, less 26 as unsigned 32-bit while the store is resized |
| `OatStore.Hooks.RewriteStore` | dex2oat/src/main/cpp/oat_hook.cpp:92-95 | the store bytes become `Rewrite`'s, the size field and the header before it are unchanged, and `store_resized` records the result |
| `OatStore.Hooks.GetKeyValueStore` | dex2oat/src/main/cpp/oat_hook.cpp:90-98 | rewrites the store, records whether it shrank, and returns where it starts |
| `OatStore.Hooks.ComputeChecksum` | dex2oat/src/main/cpp/oat_hook.cpp:100-112 | rewrites the store, lowers the size field by 26 exactly when it shrank, then runs the original checksum over the rewritten header |
| `OatStore.HookedViewIsDeletion` | dex2oat/src/main/cpp/oat_hook.cpp:81-88 | the size the hook reports for a resized store does not wrap, and the bytes it covers are the store with the occurrence deleted |
| `ElfSymbols.CStr` | core/src/main/jni/src/elf_util.cpp:269 | the C string at an offset: the bytes up to the first NUL or the end, with no NUL inside |
| `ElfSymbols.ParseSection` | core/src/main/jni/src/elf_util.cpp:82-151 | only a PROGBITS section met while `bias` is the sentinel and both tables are known changes `bias`, to `sh_addr - sh_offset`; once `bias` is set, `.dynsym` and the string table stay |
| `ElfSymbols.BiasSetOnce` | core/src/main/jni/src/elf_util.cpp:87-128 | once `bias` is fixed, later sections change neither it nor the recorded `.dynsym` and string table |
| `ElfSymbols.BeforeFixing` | core/src/main/jni/src/elf_util.cpp:86-118 | until the first section that fixes it, `bias` is the sentinel and every DYNSYM and STRTAB section is recorded |
| `ElfSymbols.BiasFromFirstProgbits` | core/src/main/jni/src/elf_util.cpp:119-131 | `bias` is `sh_addr - sh_offset` of the first PROGBITS section after both tables are known |
| `ElfSymbols.FirstMatchIndex` | core/src/main/jni/src/elf_util.cpp:267-272 | the first position on a chain whose symbol has the name, or none |
| `ElfSymbols.FirstMatch` | core/src/main/jni/src/elf_util.cpp:267-273 | a non-zero answer is the value of a `.dynsym` symbol with that name |
| `ElfSymbols.SysvWalkIsFirstMatch` | core/src/main/jni/src/elf_util.cpp:267-273 | the SysV chain walk returns the value of the first symbol on the chain with that name, or 0 |
| `ElfSymbols.ElfLookup` | core/src/main/jni/src/elf_util.cpp:262-274 | a non-zero answer of the SysV lookup is the value of a `.dynsym` symbol with that name |
| `ElfSymbols.ElfLookupFirstOnChain` | core/src/main/jni/src/elf_util.cpp:262-274 | `ElfLookup` is the first match on the chain from `bucket[hash % nbucket]` |
| `ElfSymbols.GnuWalkSound` | core/src/main/jni/src/elf_util.cpp:288-293 | a non-zero answer of the GNU walk is an accepted symbol reached without passing a chain end |
| `ElfSymbols.GnuWalkFinds` | core/src/main/jni/src/elf_util.cpp:288-293 | when an accepted symbol lies on the chain, the walk returns the first one's value |
| `ElfSymbols.GnuLookup` | core/src/main/jni/src/elf_util.cpp:276-297 | a non-zero answer needs buckets, a bloom filter and a passing bloom test, and is the value of an accepted symbol |
| `ElfSymbols.GnuLookupFinds` | core/src/main/jni/src/elf_util.cpp:276-297 | when the bloom test passes and an accepted symbol lies on the bucket's chain, `GnuLookup` returns the first one |
| `ElfSymbols.LinearEntries` | core/src/main/jni/src/elf_util.cpp:303-310 | the index has at most one entry per symbol |
| `ElfSymbols.LinearEntriesMembers` | core/src/main/jni/src/elf_util.cpp:303-310 | an entry is in the index exactly when a function or object symbol of non-zero size gives it |
| `ElfSymbols.Find` | core/src/main/jni/src/elf_util.cpp:317 | `find`: the first inserted entry with that key, or none |
| `ElfSymbols.LinearValue` | core/src/main/jni/src/elf_util.cpp:315-322 | a non-zero answer is the value of an index entry with that key; 0 when no entry has it |
| `ElfSymbols.RangeValues` | core/src/main/jni/src/elf_util.cpp:327-331 | `equal_range` yields at most one value per entry |
| `ElfSymbols.RangeValuesMatch` | core/src/main/jni/src/elf_util.cpp:324-333 | the values are exactly those of entries with that key; the first is `LinearLookup`'s, and none when `find` misses |
| `ElfSymbols.LexLeTotal` | core/src/main/jni/src/elf_util.cpp:337 | `string_view` order is total |
| `ElfSymbols.LexLeAntisymmetric` | core/src/main/jni/src/elf_util.cpp:337 | `string_view` order is antisymmetric |
| `ElfSymbols.LexLeTransitive` | core/src/main/jni/src/elf_util.cpp:337 | `string_view` order is transitive |
| `ElfSymbols.PrefixBetween` | core/src/main/jni/src/elf_util.cpp:337-338 | a key between a prefix and a key with that prefix has the prefix |
| `ElfSymbols.LowerBound` | core/src/main/jni/src/elf_util.cpp:337 | `lower_bound`: the least key not below the prefix (the first inserted among equals), or none when every key is below it |
| `ElfSymbols.PrefixLookupHits` | core/src/main/jni/src/elf_util.cpp:335-345 | `PrefixLookupFirst` answers non-zero whenever some key has the prefix, and then with the least such key |
| `ElfSymbols.SymbOffset` | core/src/main/jni/src/elf_util.cpp:359-373 | a non-zero answer is the value of a symbol with that name: one the GNU table accepts for the hash, one of `.dynsym`, or an entry of the `.symtab` index |
| `ElfSymbols.SymbOffsetAbsent` | core/src/main/jni/src/elf_util.cpp:359-373 | a name that neither `.dynsym` nor the `.symtab` index holds gives 0 |
| `ElfSymbols.SymbOffsetOrder` | core/src/main/jni/src/elf_util.cpp:359-373 | the GNU lookup first, then SysV, then the `.symtab` index, each only when the earlier ones answered 0; 0 exactly when all three do |
| `ElfMaps.Filtered` | core/src/main/jni/src/elf_util.cpp:398-418 | at most one kept entry per line |
| `ElfMaps.FilteredMembers` | core/src/main/jni/src/elf_util.cpp:406-417 | an entry is kept exactly when a fully parsed line whose path contains the name gives it |
| `ElfMaps.FirstPair` | core/src/main/jni/src/elf_util.cpp:435-443 | the first `r--p` entry directly followed by `r-xp`, or none |
| `ElfMaps.FirstExec` | core/src/main/jni/src/elf_util.cpp:446-455 | the first `r-xp` entry, or none |
| `ElfMaps.SelectBlockRule` | core/src/main/jni/src/elf_util.cpp:432-460 | the choice fails exactly when no kept mapping is `r-xp`; otherwise it is the first pair's `r--p` entry, or failing a pair the first `r-xp` entry |
| `ElfMaps.ModuleBase` | core/src/main/jni/src/elf_util.cpp:386-470 | the chosen mapping is one of the kept ones |
| `ElfMaps.ModuleBaseFromKeptLine` | core/src/main/jni/src/elf_util.cpp:406-464 | the chosen base comes from a parsed line whose path contains the requested name |
| `ElfImage.ElfImg.constructor` | core/src/main/jni/src/elf_util.cpp:45-73 | no base found leaves a null base and an unparsed image; otherwise the base and path are the chosen mapping's, and an opened file is parsed, followed by the debug image when stripped |
| `ElfImage.ElfImg.Parse` | core/src/main/jni/src/elf_util.cpp:75-153 | the section loop leaves `Parsed` of the old fields |
| `ElfImage.ElfImg.ParseStep` | core/src/main/jni/src/elf_util.cpp:82-151 | one switch case leaves `ParseSection` of the old fields |
| `ElfImage.ElfImg.MayInitLinearMap` | core/src/main/jni/src/elf_util.cpp:299-313 | builds the index once, when it is empty and `.symtab` and `.strtab` are known |
| `ElfImage.ElfImg.LinearLookup` | core/src/main/jni/src/elf_util.cpp:315-322 | builds the index, then the first inserted value of that name, or 0 |
| `ElfImage.ElfImg.LinearRangeLookup` | core/src/main/jni/src/elf_util.cpp:324-333 | builds the index, then every value of that name in insertion order |
| `ElfImage.ElfImg.PrefixLookupFirst` | core/src/main/jni/src/elf_util.cpp:335-345 | builds the index, then the value at the lower bound when its key starts with the prefix, else 0 |
| `ElfImage.ElfImg.GetSymbOffset` | core/src/main/jni/src/elf_util.cpp:359-373 | the answer is `SymbOffset`; the index is built only when both hash lookups answer 0 |
| `ElfImage.ElfImg.FindModuleBase` | core/src/main/jni/src/elf_util.cpp:386-470 | succeeds exactly when `ModuleBase` finds a mapping, then sets base and path to it; otherwise changes neither |
| `ElfImage.FilterMaps` | core/src/main/jni/src/elf_util.cpp:398-418 | the line loop yields `Filtered` |
| `ElfImage.FindBlock` | core/src/main/jni/src/elf_util.cpp:432-455 | the two loops yield `SelectBlock` |

## Left out

- `log`, `login`, `status`, `revoke-pin`, and the printing of `modules ls` and `scope ls`. These only print what the service returns. The marker test of `modules ls` is `HasModuleMarker`, and the `scope ls` line format is `ScopeConverter.Format`.
- picocli option parsing, `main`/`exec`, and the ERRCODES ordinals. Statuses are named values.
- Exception messages are not modelled. Each RuntimeException, RemoteException and SecurityException is a named status or failure.
- Backup and restore file I/O is not modelled: gzip, JSON text and the timestamped default file name. The command sees a decoded document. A key that is absent is None and ends the command, except `autoInclude`, which then reads as false.
- `Snapshot.ScopesOf`: the model decodes the document strictly, one type per key. The org.json getters coerce: `getString` takes the text of any value, `getBoolean` accepts the strings "true" and "false", and `getInt` accepts numeric strings. So a document that restores only through such a coercion is outside the model, for example a version 1 document whose scope items are objects (`getString(j)` at Main.java:647 turns each object into its JSON text).
- Binder and Parcel are not modelled. The transport outcome and the daemon's answer to a PIN are parameters, and so are the environment variable and the console.
- `Handshake.Connect`: an exception that `reply.readException()` rethrows is taken to be a RemoteException or SecurityException, which `getManager` turns into the NO_DAEMON exit. Other runtime exceptions it may rethrow leave `getManager` uncaught, and the model does not follow them.
- `ScopeConverter.ParseInt`: digits are the ASCII digits '0' to '9'. `Integer.parseInt` goes through `Character.digit`, which also accepts other Unicode decimal digits such as U+0663; such user ids are outside the model.
- `Utils.validPackageNameAndUserId` and `Utils.checkPackageModule` are function parameters. `Utils.checkPackageInScope` is taken as "some entry has that package name". `Utils` is not part of this model.
- ConfigManager is not part of this model. It is a value holding the enabled set, scopes and auto-include flags, plus, for each of enable, disable and set-scope, the modules for which it refuses that change. `PackageService.getApplicationInfo` is a map for user 0, and `getInstalledPackagesFromAllUsers` is an input list.
- The CLI service's `workerHandler`, session handling and the other binder methods.
- ELF image loading is not modelled: `open`, `lseek`, `mmap`, `munmap` and the destructor. A file that cannot be opened is None. `xzdecompress` is not modelled; the decompressed debug image is an input. `isStripped` is a parameter.
- Reading `/proc/self/maps` is not modelled; `fopen` failure and `sscanf` are left out. The map lines arrive already split into items.
- Section tables arrive decoded. A section's symbols are its decoded entries, and `symtab_count` is their number. A read outside a decoded table is a miss. Only 64-bit images are modelled.
- `ElfSymbols.SysvChain`: a SysV chain is followed for at most as many steps as the chain array is long, plus one. A chain that loops forever in the source (a corrupt table) ends there instead.
- `ElfSymbols.BloomPasses`: the bloom filter's shift by `gnu_shift2_` is a division by a power of two.
- `elf_util.h` is not part of this model. `symtabs_` is taken to be a `std::multimap` keyed by `string_view`. Among equal keys, `find` and `lower_bound` give the first one inserted.
- The hook library's `initialize` and `register_hook` (lsplt registration) and `dex2oat.cpp` are not part of this model. The original `ComputeChecksum` is a function parameter. Logging is left out.
- Inside the hooks the header accessors are the library's own `oat.cpp` definitions, not the hooked ones. How the hooks combine when ART calls them in some order is modelled only one call at a time.

Behaviour of the code that the model keeps:

- `scope set --append` adds every requested entry, even one already in the scope, so duplicates are kept (Main.java:405-410).
- With `--ignore`, an entry that fails validation is not dropped: it is written along with the valid ones (Main.java:373-381, 389).
- `restore` accepts only versions 1 and 2; every other version is "Unknown backup file version" (Main.java:614, 655-656).
