# Migration parameters and undo-remove, modelled in Dafny

This project models two small sequential parts of the Robinhood policy engine.

**The migration policy's parameter store**, `src/policy_modules/migration/migr_config.c`, is in `migr_config.dfy` (module `MigrConfig`).
- The `migration_config_t` record is the datatype `Params`.
- An object holding one record (the live global `migr_config`, or the record a configuration file is read into) is the class `MigrationConfig`. Its methods change the record in place:
  - `SetDefault` fills in the defaults;
  - `Read` overlays the `Migration_Parameters` block of a configuration file onto the record, key by key, returning at the first lookup error;
  - `Reload` compares a freshly read record with the live one. It reports the three static fields that differ, and it copies and reports each dynamic field that differs.
- The configuration file is a map from item names to items. A block is a map from key names to `Lookup` values: a parsed number, or the code of a malformed literal. A key absent from the map is "not found" (`ENOENT`).
- Each method is proved against a specification function: `ReadResult` (through `Overlay`) for `Read`, and `Reloaded` and `ReloadEvents` for `Reload`. The properties the source promises are then proved as lemmas about those functions:
  - only a found key changes its field;
  - the first failing key stops the read, and the fields before it keep their new values;
  - zero is refused exactly for the `NOT_NULL` keys;
  - the record's bounds are preserved;
  - static fields never change on reload, and dynamic fields always take the new value;
  - a reload is idempotent;
  - each event is reported exactly when its field differs.

**The undo-remove tool**, `src/robinhood/robinhood_undo_rm.c`, is in `path_filter.dfy` (module `PathFilter`) and `undo_rm.dfy` (module `UndoRm`).
- `mk_path_filter` appends two LIKE clauses, grouped by the OR flag, to a list-manager filter, and strips one trailing `/` from the global path filter in place. It is the method `UndoRmTool.MkPathFilter`, which works on a `Filter` object whose clause list grows.
- The meaning of the clauses is given by `Accepts`, an evaluation of the clause list. It is proved to be "the path is `F`, or lies below `F`" (`Selected`).
- `undo_rm` is the method `UndoRmTool.UndoRm`:
  - it builds the filter;
  - it asks the list manager for the filtered soft-removed entries, giving -1 when the listing is unavailable;
  - it restores each entry in turn (`RestoreEntries`, `RestoreEntry`).
- Restoring an entry works as follows. An entry without a known path is skipped. Otherwise the restore attributes are built, and the recover call is made. On `RS_OK`/`RS_DELTA`, the old journal row is discarded and the new entry is inserted into the catalog; if it already exists, it is updated.
- The soft-removed journal and the entry catalog are maps held by the `ListManager` object. The database calls are functions over those maps, and a fault oracle decides which calls fail with a request error.
- The batch is specified by the fold `RestoreAll`, and the lemmas about it state:
  - the effect of one entry, with and without faults;
  - the journal only shrinks and the catalog never loses rows;
  - a row leaves the journal only for a recovered entry;
  - a skipped or failed entry does not influence the others;
  - a second restore of the same entry changes nothing.

`wrappers.dfy` holds the `Option` type.

Two behaviours of the code worth stating plainly:
- `Read` passes `INT_PARAM_NOT_NULL` for `runtime_interval`, `migration_timeout`, `check_copy_status_delay`, `nb_threads_migration` and `migration_queue_size` (migr_config.c:169-170 and the matching stanzas), so 0 is refused for those and accepted for the other numeric keys (`ReadZero`).
- A discard that finds no journal row does not stop the catalog write (robinhood_undo_rm.c:355-358). Restoring an entry a second time therefore reports `DbNotExists` for the discard and updates the existing catalog row (`RestoreTwice`).

## Model

| member | source | states |
|---|---|---|
| `MigrConfig.Defaults` | src/policy_modules/migration/migr_config.c:29-51 | the default record satisfies the bounds `ValidParams` (positive NOT_NULL fields, non-negative others), has no count or volume cap and both flags set |
| `MigrConfig.MigrationConfig.SetDefault` | src/policy_modules/migration/migr_config.c:29-51 | returns 0 with an empty message and leaves exactly the defaults: 300, 4, 4096, 10000, 0, 0, TRUE, 1800, 7200, 86400, 1800 |
| `MigrConfig.Assign` | src/policy_modules/migration/migr_config.c:173-174 | a successful read of v stores v in the field (a boolean field stores v != 0) |
| `MigrConfig.AssignFrame` | src/policy_modules/migration/migr_config.c:173-174 | writing one field leaves every other field unchanged |
| `MigrConfig.GetParam` | src/policy_modules/migration/migr_config.c:169-172 | a parameter lookup gives ENOENT exactly when the key is absent, and 0 exactly when the key holds a well-formed value its INT_PARAM flags admit; the value is then the block's value |
| `MigrConfig.FirstFailure` | src/policy_modules/migration/migr_config.c:169-250 | the index of the first key whose lookup fails with a code other than 0 and ENOENT; every key before it passes |
| `MigrConfig.MigrationConfig.Read` | src/policy_modules/migration/migr_config.c:133-256 | code, new record and reported unknown keys are those of `ReadResult` on the old record: 0 with the record unchanged when the block is absent, EINVAL when the item is not a block, otherwise the key-by-key overlay in the source's stanza order with early return |
| `MigrConfig.ReadOrderWellFormed` | src/policy_modules/migration/migr_config.c:169-250 | the key table names each field once; a key is read with INT_PARAM_NOT_NULL exactly for the five NOT_NULL fields, and every numeric key carries at least POSITIVE |
| `MigrConfig.OverlayField` | src/policy_modules/migration/migr_config.c:169-250 | after the overlay, a field whose key lies before the first failing key and was found holds the value read; every other field keeps its old value |
| `MigrConfig.OverlayStatus` | src/policy_modules/migration/migr_config.c:171-172 | the overlay returns the code of the first failing key, or 0 when none fails |
| `MigrConfig.OverlayKeepsValid` | src/policy_modules/migration/migr_config.c:169-250 | a table whose keys are read with flags that suit their fields keeps a valid record valid |
| `MigrConfig.OverlaySameKeys` | src/policy_modules/migration/migr_config.c:169-250 | the overlay depends only on the keys the table names |
| `MigrConfig.ReadField` | src/policy_modules/migration/migr_config.c:169-250 | Read, field by field: a field found before the first failure takes the value read; every other field keeps its value, including fields after the failing key |
| `MigrConfig.ReadStatus` | src/policy_modules/migration/migr_config.c:169-254 | Read's code is the first failing lookup's code, 0 when no key fails |
| `MigrConfig.ReadMissingKeyKeepsField` | src/policy_modules/migration/migr_config.c:153-158 | a key missing from the block, or a missing block, leaves its field unchanged |
| `MigrConfig.ReadSuccessSetsFoundKeys` | src/policy_modules/migration/migr_config.c:169-250 | when Read returns 0, every key found in the block has set its field to the value found |
| `MigrConfig.ReadKeepsValid` | src/policy_modules/migration/migr_config.c:133-256 | whatever the configuration holds, Read keeps a valid record valid |
| `MigrConfig.ReadIgnoresOtherKeys` | src/policy_modules/migration/migr_config.c:216-219 | a key outside the allowed list, `simulation_mode` included, changes neither the code nor the record; on success it is only added to the unknown keys |
| `MigrConfig.SimulationModeNotAllowed` | src/policy_modules/migration/migr_config.c:140-149 | `simulation_mode` is not in the allowed list, so CheckUnknownParameters reports it |
| `MigrConfig.KeysAllowed` | src/policy_modules/migration/migr_config.c:140-149 | the key of every field is in the allowed list |
| `MigrConfig.ReadSingleKey` | src/policy_modules/migration/migr_config.c:169-250 | a block holding only one field's key fails with that lookup's code or sets that field from it |
| `MigrConfig.ReadZero` | src/policy_modules/migration/migr_config.c:169-250 | a block holding only f = 0 is refused with EINVAL for the NOT_NULL fields and accepted, storing 0, for the POSITIVE-only and boolean ones |
| `MigrConfig.Reloaded` | src/policy_modules/migration/migr_config.c:259-364 | after a reload, every static field keeps its live value and every dynamic field holds the new one; bounds are preserved |
| `MigrConfig.MigrationConfig.Reload` | src/policy_modules/migration/migr_config.c:259-364 | returns 0; the live record becomes `Reloaded(old, conf)` and the reports are `ReloadEvents` in the source's comparison order |
| `MigrConfig.ReloadedAllFields` | src/policy_modules/migration/migr_config.c:263-360 | comparing and copying field by field in the source's order yields exactly `Reloaded` |
| `MigrConfig.ReloadEventsExact` | src/policy_modules/migration/migr_config.c:265-360 | a static field is reported as not applied iff it differs; a dynamic field is reported as updated from the live to the new value iff they differ |
| `MigrConfig.ReloadIdempotent` | src/policy_modules/migration/migr_config.c:281-360 | a second reload of the same record changes nothing and reports no update |
| `MigrConfig.ReloadSameStatic` | src/policy_modules/migration/migr_config.c:265-277 | when the static fields agree, the live record becomes the new record and nothing is reported as not applied |
| `MigrConfig.ReloadScenario` | src/policy_modules/migration/migr_config.c:265-287 | from the defaults, a record with 8 threads and a 1000-entry cap keeps 4 threads (reported as not applied) and takes the cap at once (reported 0 to 1000), with no other report |
| `PathFilter.Filter.Init` | src/robinhood/robinhood_undo_rm.c:178-182 | initialising a filter empties its clause list |
| `PathFilter.Filter.Add` | src/robinhood/robinhood_undo_rm.c:191-192 | adding a clause appends it to the end of the list |
| `PathFilter.PathClausesNoSlash` | src/robinhood/robinhood_undo_rm.c:187-198 | for a filter F without a trailing slash, the clauses accept exactly F and the paths starting with F + "/" |
| `PathFilter.PathClausesSlash` | src/robinhood/robinhood_undo_rm.c:199-212 | for F ending in a slash, the clauses accept exactly the paths starting with F and F without its slash |
| `PathFilter.PathClausesMeaning` | src/robinhood/robinhood_undo_rm.c:176-213 | the appended clauses let a path through iff the earlier filter does and the path is the normalised F or lies below it; on the empty filter both callers start from, exactly the normalised F and the paths below it are accepted |
| `PathFilter.EmptyPathFilterSelectsAll` | src/robinhood/robinhood_undo_rm.c:176 | an empty path filter adds no condition |
| `PathFilter.TrailingSlashIgnored` | src/robinhood/robinhood_undo_rm.c:199-211 | F + "/" selects the same paths as F |
| `PathFilter.SelectionExamples` | src/robinhood/robinhood_undo_rm.c:186-211 | `/a/b` and `/a/b/` both select `/a/b` and `/a/b/c`, and neither selects `/a/bc` |
| `UndoRm.UndoRmTool.MkPathFilter` | src/robinhood/robinhood_undo_rm.c:169-215 | returns 0; the global path filter loses exactly one trailing slash; the filter gains the path clauses, after a reset only when a non-empty path filter meets a caller flag saying it is uninitialised, which is then set |
| `UndoRm.DbDiscard` | src/robinhood/robinhood_undo_rm.c:355-356 | a discard succeeds iff no fault and the id is in the journal, and then removes exactly that row; the catalog is untouched |
| `UndoRm.DbInsert` | src/robinhood/robinhood_undo_rm.c:358 | an insert reports AlreadyExists iff the id has a catalog row, succeeds iff it has none, and then adds exactly that row |
| `UndoRm.DbUpdate` | src/robinhood/robinhood_undo_rm.c:362 | an update succeeds iff no fault and the id has a catalog row, and then replaces exactly that row |
| `UndoRm.ListManager.SoftRemoveDiscard` | src/robinhood/robinhood_undo_rm.c:355 | the discard call changes the database as `DbDiscard` says |
| `UndoRm.ListManager.Insert` | src/robinhood/robinhood_undo_rm.c:358 | the insert call changes the database as `DbInsert` says |
| `UndoRm.ListManager.Update` | src/robinhood/robinhood_undo_rm.c:362 | the update call changes the database as `DbUpdate` says |
| `UndoRm.ListManager.RmList` | src/robinhood/robinhood_undo_rm.c:312-320 | the listing is absent when it cannot be obtained; otherwise, given an enumeration of every journal row once, it holds every journal row the filter accepts, each once, and nothing else |
| `UndoRm.Listing` | src/robinhood/robinhood_undo_rm.c:313 | every listed entry is a journal row whose last known path the filter accepts |
| `UndoRm.ListingComplete` | src/robinhood/robinhood_undo_rm.c:313 | every journal row the enumeration reaches and the filter accepts is listed |
| `UndoRm.UnfilteredListingComplete` | src/robinhood/robinhood_undo_rm.c:176 | with no path filter every journal row the enumeration reaches is listed |
| `UndoRm.ListingDistinct` | src/robinhood/robinhood_undo_rm.c:313 | an enumeration without repeats gives a listing without repeated entries |
| `UndoRm.ListingEnumerates` | src/robinhood/robinhood_undo_rm.c:312-313 | over an enumeration of the whole journal, the listing holds every row the filter accepts, each exactly once |
| `UndoRm.RestoreAttrs` | src/robinhood/robinhood_undo_rm.c:340-348 | the restore attributes always carry the full path and carry the backend path iff it is non-empty |
| `UndoRm.Upsert` | src/robinhood/robinhood_undo_rm.c:358-363 | insert-then-update succeeds iff the insert does not fail and, when the row exists, the update does not fail; on success the catalog maps the new id to the new attributes, and otherwise it is unchanged |
| `UndoRm.UndoRmTool.RestoreEntry` | src/robinhood/robinhood_undo_rm.c:330-372 | one loop iteration changes the database and reports the outcome as `RestoreOne` says |
| `UndoRm.UndoRmTool.RestoreEntries` | src/robinhood/robinhood_undo_rm.c:322-374 | every listed entry is counted and handled in order; the database and outcomes are those of `RestoreAll` |
| `UndoRm.UndoRmTool.UndoRm` | src/robinhood/robinhood_undo_rm.c:293-377 | -1 with nothing changed when the listing is unavailable; otherwise 0, a listing holding every soft-removed row the path filter accepts, each once, every listed entry counted, and the database as `RestoreAll` leaves it |
| `UndoRm.RestoreAll` | src/robinhood/robinhood_undo_rm.c:322-374 | one outcome per entry, and an outcome is Skipped iff the entry has no known path |
| `UndoRm.SkipChangesNothing` | src/robinhood/robinhood_undo_rm.c:330-336 | an entry with an empty last known path is skipped, whatever recover would do, and nothing changes |
| `UndoRm.FailedRecoveryChangesNothing` | src/robinhood/robinhood_undo_rm.c:369-372 | a recover status other than RS_OK/RS_DELTA leaves journal and catalog untouched |
| `UndoRm.RecoveredEntry` | src/robinhood/robinhood_undo_rm.c:352-368 | after a successful recover, the journal loses the old id iff the discard succeeds; the catalog write is attempted whatever the discard gave, and succeeds exactly under the insert/update fault conditions, setting the new row |
| `UndoRm.RecoveredEntryNoFault` | src/robinhood/robinhood_undo_rm.c:352-368 | without faults a recovered entry leaves the journal and the catalog maps the new id to exactly the new attributes |
| `UndoRm.RestoreTwice` | src/robinhood/robinhood_undo_rm.c:355-363 | restoring the same entry again (recover, a function of id and attributes, returns the same result) changes nothing: the discard reports NotExists, the insert reports AlreadyExists and the update succeeds |
| `UndoRm.RestoreF1` | src/robinhood/robinhood_undo_rm.c:340-368 | the entry `/mnt/fs/file1` with backend path `bk/1`, recovered under the same id, leaves the journal and is in the catalog with the recovered attributes |
| `UndoRm.BatchMonotone` | src/robinhood/robinhood_undo_rm.c:322-374 | over a batch the journal only loses rows, the rows left are unchanged, and the catalog never loses a row |
| `UndoRm.BatchDiscardsOnlyRecovered` | src/robinhood/robinhood_undo_rm.c:352-356 | a journal row disappears only for a listed entry with a known path whose recover succeeded |
| `UndoRm.FailedEntryIndependent` | src/robinhood/robinhood_undo_rm.c:322-374 | a skipped or failed entry can be removed from the batch without changing the final journal and catalog: one failure never stops or alters the rest |

## Left out

- `MigrConfig.MigrationConfig.Read` and `MigrConfig.MigrationConfig.Reload` are written as loops over a key table (`ReadOrder`, `ReloadOrder`), not as the source's twelve straight-line stanzas. Each iteration takes the same branches, in the same order, as the corresponding stanza. `ReadOrderWellFormed` and `ReloadOrderCovers` tie the tables to the fields.
- The Get*Param helpers, `rh_config_*` and `CheckUnknownParameters` are not part of this model. The model assumes:
  - a missing key gives ENOENT;
  - a malformed literal gives its own non-zero code;
  - `INT_PARAM_POSITIVE` admits values >= 0, and with `INT_PARAM_NOT_NULL` only values > 0;
  - a value outside the flags gives EINVAL;
  - the field is written only when the helper returns 0.
- Parsing of duration, size and boolean literals is abstracted into `Lookup`. Booleans are read as any integer and stored as `v != 0`.
- C integer widths are not modelled. Unsigned fields read through `(int *)` casts, and the `%u` truncations in reload reports, become unbounded integers.
- Read's `msg_out` text, `DisplayLog` and `printf`/`fprintf` output are dropped. Reload's reports are modelled as `Event` values. The `do_display` printing of `mk_path_filter` is dropped.
- `backup_new_files` and the backend path are treated as always compiled in (`_LUSTRE_HSM`/`_BACKUP_FS`).
- `Write_Migration_ConfigDefault`, `Write_Migration_ConfigTemplate`, `main`, help/version output and `list_rm` presentation are not modelled (text output and command-line plumbing).
- `PathFilter.PathClausesMeaning` relies on an assumed meaning of the filter flags, since `lmgr_simple_filter_add` and the SQL it generates are not part of this model: `Evaluate` treats a clause without the OR flag as opening a new group, a clause with the OR flag as joining the open group, ignores the END flag, and AND-s the groups. For the empty earlier filter that `undo_rm` and `list_rm` start from, this grouping is the only one the two appended clauses can have; for a non-empty earlier filter the list manager's actual precedence may differ.
- `PathFilter.LikeMatches` models SQL LIKE only for what `mk_path_filter` builds: a trailing `*` is a prefix wildcard, and everything else is literal. `PathClausesMeaning` requires the path filter to contain no `*`; `%` and `_` in a user path are treated as literal characters.
- The 1024-byte `path_regexp` buffer and `RBH_PATH_MAX` truncation are not modelled.
- `UndoRm.ListManager.RmList`: the list manager's enumeration order is the parameter `order`, required to name every journal row exactly once (`Enumerates`), and its availability is the parameter `available`. The listing is a snapshot taken when the call is made; it lists every deferred removal, expired or not, as the `FALSE` argument asks. A cursor error that ends the `ListMgr_GetNextRmEntry` loop early is not modelled.
- `rbhext_recover` is the parameter `recover`. Database request failures come from the oracle `fault`, fixed per call kind and id for the whole run, so a call that fails once cannot succeed later for the same id (no transient faults). A discard of a missing journal row and an update of a missing catalog row are assumed to report `DbNotExists`; the source only tests these results against 0.
- `PathFilter.Filter.Add` keeps the clause value, so `lmgr_simple_filter_add` is assumed to copy the string it is given; in the source, `path_regexp` is a stack buffer of `mk_path_filter` that is gone by the time `ListMgr_RmList` reads the filter, which the model does not capture.
- `undo_rm` falls off its end without a return value and without closing the list; the model returns 0 after the loop.
- The `last_known_path`/`bkpath` buffers are not cleared between iterations in the source. The model treats each listed entry as a fresh record.
- The skip message uses `bkpath` outside its `#ifdef`; it only affects output and is not modelled.
- The scheduler, worker pool, copy-status poller and maintenance pacing are not part of this model.
