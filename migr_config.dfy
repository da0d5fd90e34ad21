/**
 * The migration policy's parameter store: the `Migration_Parameters` record,
 * its defaults, the overlay of a configuration block onto it, and the reload
 * of a new record into the live one (static fields reported, dynamic ones
 * copied).
 */
module MigrConfig {

  /** errno values returned by the parameter readers (Linux numbering). */
  const ENOENT := 2
  const EINVAL := 22

  const MigrParamBlock := "Migration_Parameters"

  /** An error code a parameter helper can report for a key that is present. */
  type ErrCode = c: int | c != 0 && c != ENOENT witness EINVAL

  /**
   * What the configuration parser gives for one key of the block: the parsed
   * number (a duration in seconds, a size in bytes, a count, or a boolean as
   * 0/1) or the code of a malformed literal. A key missing from the block map
   * is "not found".
   */
  datatype Lookup = Ok(v: int) | Err(code: ErrCode)

  type ParamBlock = map<string, Lookup>

  /** A top-level configuration item: a block of parameters or a plain value. */
  datatype Item = Block(params: ParamBlock) | Scalar(text: string)

  type ConfigFile = map<string, Item>

  /** The migration parameters (the fields of the C `migration_config_t`). */
  datatype Params = Params(
    runtimeInterval: int,
    nbThreadsMigr: int,
    migrQueueSize: int,
    dbRequestLimit: int,
    maxMigrNbr: int,
    maxMigrVol: int,
    backupNewFiles: bool,
    checkCopyStatusOnStartup: bool,
    checkCopyStatusDelay: int,
    migrationTimeout: int,
    preMaintenanceWindow: int,
    maintMinMigrDelay: int)

  datatype Field =
    | RuntimeInterval | NbThreadsMigr | MigrQueueSize | DbRequestLimit
    | MaxMigrNbr | MaxMigrVol | BackupNewFiles | CheckCopyStatusOnStartup
    | CheckCopyStatusDelay | MigrationTimeout | PreMaintenanceWindow | MaintMinMigrDelay

  predicate IsFlag(f: Field) {
    f == BackupNewFiles || f == CheckCopyStatusOnStartup
  }

  /** The fields a reload never changes in the live record. */
  predicate IsStatic(f: Field) {
    f == NbThreadsMigr || f == MigrQueueSize || f == CheckCopyStatusOnStartup
  }

  function BoolToInt(b: bool): int { if b then 1 else 0 }

  /** The value of a field as the C code stores it (booleans as 0/1). */
  function FieldValue(p: Params, f: Field): int {
    match f
    case RuntimeInterval => p.runtimeInterval
    case NbThreadsMigr => p.nbThreadsMigr
    case MigrQueueSize => p.migrQueueSize
    case DbRequestLimit => p.dbRequestLimit
    case MaxMigrNbr => p.maxMigrNbr
    case MaxMigrVol => p.maxMigrVol
    case BackupNewFiles => BoolToInt(p.backupNewFiles)
    case CheckCopyStatusOnStartup => BoolToInt(p.checkCopyStatusOnStartup)
    case CheckCopyStatusDelay => p.checkCopyStatusDelay
    case MigrationTimeout => p.migrationTimeout
    case PreMaintenanceWindow => p.preMaintenanceWindow
    case MaintMinMigrDelay => p.maintMinMigrDelay
  }

  /** What a field holds after a successful read of `v` into it. */
  function Stored(f: Field, v: int): int {
    if IsFlag(f) then BoolToInt(v != 0) else v
  }

  /** Overwrites one field with a value read from the block. */
  function Assign(p: Params, f: Field, v: int): (r: Params)
    ensures FieldValue(r, f) == Stored(f, v)

  {
    match f
    case RuntimeInterval => p.(runtimeInterval := v)
    case NbThreadsMigr => p.(nbThreadsMigr := v)
    case MigrQueueSize => p.(migrQueueSize := v)
    case DbRequestLimit => p.(dbRequestLimit := v)
    case MaxMigrNbr => p.(maxMigrNbr := v)
    case MaxMigrVol => p.(maxMigrVol := v)
    case BackupNewFiles => p.(backupNewFiles := v != 0)
    case CheckCopyStatusOnStartup => p.(checkCopyStatusOnStartup := v != 0)
    case CheckCopyStatusDelay => p.(checkCopyStatusDelay := v)
    case MigrationTimeout => p.(migrationTimeout := v)
    case PreMaintenanceWindow => p.(preMaintenanceWindow := v)
    case MaintMinMigrDelay => p.(maintMinMigrDelay := v)
  }

  /**
   * The bounds every record built from the defaults and validated reads keeps:
   * the NOT_NULL fields are strictly positive, the POSITIVE ones non-negative.
   */
  predicate ValidParams(p: Params) {
    && p.runtimeInterval > 0
    && p.migrationTimeout > 0
    && p.checkCopyStatusDelay > 0
    && p.nbThreadsMigr > 0
    && p.migrQueueSize > 0
    && p.maxMigrNbr >= 0
    && p.maxMigrVol >= 0
    && p.dbRequestLimit >= 0
    && p.preMaintenanceWindow >= 0
    && p.maintMinMigrDelay >= 0
  }

  /** The documented defaults. */
  function Defaults(): (d: Params)
    ensures ValidParams(d)
    ensures d.maxMigrNbr == 0 && d.maxMigrVol == 0  // no cap on count or volume
    ensures d.backupNewFiles && d.checkCopyStatusOnStartup
  {
    Params(
      runtimeInterval := 5 * 60,
      nbThreadsMigr := 4,
      migrQueueSize := 4096,
      dbRequestLimit := 10000,
      maxMigrNbr := 0,
      maxMigrVol := 0,
      backupNewFiles := true,
      checkCopyStatusOnStartup := true,
      checkCopyStatusDelay := 30 * 60,
      migrationTimeout := 2 * 3600,
      preMaintenanceWindow := 24 * 3600,
      maintMinMigrDelay := 30 * 60)
  }

  // ---------------------------------------------------------------------------
  // Reading one parameter

  /** The INT_PARAM_* flags a caller passes to the parameter helpers. */
  datatype Constraint = Unconstrained | Positive | PositiveNotNull

  predicate Admits(c: Constraint, v: int) {
    match c
    case Unconstrained => true
    case Positive => v >= 0
    case PositiveNotNull => v > 0
  }

  /** A helper's return code and, when the code is 0, the value it read. */
  datatype Fetched = Fetched(rc: int, value: int)

  /** The Get*Param helpers: ENOENT when absent, EINVAL when the value breaks the flags. */
  function GetParam(block: ParamBlock, name: string, c: Constraint): (g: Fetched)
    ensures g.rc == ENOENT <==> name !in block
    ensures g.rc == 0 <==> name in block && block[name].Ok? && Admits(c, block[name].v)
    ensures g.rc == 0 ==> g.value == block[name].v
  {
    if name !in block then Fetched(ENOENT, 0)
    else match block[name]
      case Err(code) => Fetched(code, 0)
      case Ok(v) => if Admits(c, v) then Fetched(0, v) else Fetched(EINVAL, 0)
  }

  predicate Fails(g: Fetched) { g.rc != 0 && g.rc != ENOENT }

  // ---------------------------------------------------------------------------
  // The key table and the overlay it specifies

  /** The configuration key that sets each field. */
  function KeyOf(f: Field): string {
    match f
    case RuntimeInterval => "runtime_interval"
    case NbThreadsMigr => "nb_threads_migration"
    case MigrQueueSize => "migration_queue_size"
    case DbRequestLimit => "db_result_size_max"
    case MaxMigrNbr => "max_migration_count"
    case MaxMigrVol => "max_migration_volume"
    case BackupNewFiles => "backup_new_files"
    case CheckCopyStatusOnStartup => "check_copy_status_on_startup"
    case CheckCopyStatusDelay => "check_copy_status_delay"
    case MigrationTimeout => "migration_timeout"
    case PreMaintenanceWindow => "pre_maintenance_window"
    case MaintMinMigrDelay => "maint_migr_delay_min"
  }

  const SimulationModeKey := "simulation_mode"

  /** A key Read looks up: a field with its flags, or the deprecated key that only warns. */
  datatype ParamKey = Known(field: Field, constraint: Constraint) | SimulationMode

  /** The keys in the order Read looks them up. */
  const ReadOrder: seq<ParamKey> := [
    Known(RuntimeInterval, PositiveNotNull),
    Known(MaxMigrNbr, Positive),
    Known(MaxMigrVol, Positive),
    Known(MigrationTimeout, PositiveNotNull),
    Known(BackupNewFiles, Unconstrained),
    Known(CheckCopyStatusOnStartup, Unconstrained),
    Known(CheckCopyStatusDelay, PositiveNotNull),
    SimulationMode,
    Known(NbThreadsMigr, PositiveNotNull),
    Known(MigrQueueSize, PositiveNotNull),
    Known(DbRequestLimit, Positive),
    Known(PreMaintenanceWindow, Positive),
    Known(MaintMinMigrDelay, Positive)
  ]

  /** The keys CheckUnknownParameters accepts without a report: one per field. */
  const AllowedKeys: set<string> := {
    KeyOf(RuntimeInterval), KeyOf(MaxMigrNbr), KeyOf(MaxMigrVol),
    KeyOf(BackupNewFiles), KeyOf(CheckCopyStatusOnStartup), KeyOf(CheckCopyStatusDelay),
    KeyOf(MigrationTimeout), KeyOf(NbThreadsMigr), KeyOf(MigrQueueSize),
    KeyOf(DbRequestLimit), KeyOf(PreMaintenanceWindow), KeyOf(MaintMinMigrDelay)
  }

  /** Whether looking up key k fails the read. */
  predicate KeyFails(block: ParamBlock, k: ParamKey) {
    k.Known? && Fails(GetParam(block, KeyOf(k.field), k.constraint))
  }

  /** The record after looking up one key that does not fail: a found key sets its field. */
  function Next(block: ParamBlock, k: ParamKey, p: Params): Params {
    match k
    case SimulationMode => p
    case Known(f, c) =>
      var g := GetParam(block, KeyOf(f), c);
      if g.rc == 0 then Assign(p, f, g.value) else p
  }

  /** The code an overlay stops with and the record it leaves. */
  datatype Overlaid = Overlaid(rc: int, conf: Params)

  /**
   * The overlay of `block` onto `p` from key i on: each known key found
   * overwrites its field, a missing one leaves it, the first failing one
   * stops with its code.
   */
  function Overlay(block: ParamBlock, keys: seq<ParamKey>, i: nat, p: Params): Overlaid
    requires i <= |keys|
    decreases |keys| - i
  {
    if i == |keys| then Overlaid(0, p)
    else if KeyFails(block, keys[i]) then Overlaid(GetParam(block, KeyOf(keys[i].field), keys[i].constraint).rc, p)
    else Overlay(block, keys, i + 1, Next(block, keys[i], p))
  }

  /** The index of the first failing key at or after i, |keys| if none. */
  function FirstFailure(block: ParamBlock, keys: seq<ParamKey>, i: nat): (n: nat)
    requires i <= |keys|
    ensures i <= n <= |keys|
    ensures n < |keys| ==> KeyFails(block, keys[n])
    ensures forall j :: i <= j < n ==> !KeyFails(block, keys[j])
    decreases |keys| - i
  {
    if i == |keys| then i
    else if KeyFails(block, keys[i]) then i
    else FirstFailure(block, keys, i + 1)
  }

  /** Outcome of Read: its return code, the record, the keys reported as unknown. */
  datatype ReadOutcome = ReadOutcome(rc: int, conf: Params, unknown: set<string>)

  function ReadResult(cfg: ConfigFile, p: Params): ReadOutcome {
    if MigrParamBlock !in cfg then ReadOutcome(0, p, {})
    else match cfg[MigrParamBlock]
      case Scalar(_) => ReadOutcome(EINVAL, p, {})
      case Block(block) =>
        var o := Overlay(block, ReadOrder, 0, p);
        ReadOutcome(o.rc, o.conf, if o.rc == 0 then block.Keys - AllowedKeys else {})
  }

  // ---------------------------------------------------------------------------
  // Reload: events and the record it leaves

  /** DisplayLog reports of a reload: a static change refused, or a dynamic field updated. */
  datatype Event = NotApplied(field: Field) | Updated(field: Field, from: int, to: int)

  /** The fields in the order Reload compares them. */
  const ReloadOrder: seq<Field> := [
    NbThreadsMigr, MigrQueueSize, CheckCopyStatusOnStartup,
    MaxMigrNbr, MaxMigrVol, RuntimeInterval, MigrationTimeout, BackupNewFiles,
    DbRequestLimit, CheckCopyStatusDelay, PreMaintenanceWindow, MaintMinMigrDelay
  ]

  /** The report for field f when the live record holds `cur`. */
  function EventFor(cur: Params, conf: Params, f: Field): seq<Event> {
    if FieldValue(cur, f) == FieldValue(conf, f) then []
    else if IsStatic(f) then [NotApplied(f)]
    else [Updated(f, FieldValue(cur, f), FieldValue(conf, f))]
  }

  /** The live record once the first n fields of ReloadOrder have been compared. */
  function ReloadedPrefix(live: Params, conf: Params, n: nat): Params
    requires n <= |ReloadOrder|
  {
    if n == 0 then live
    else
      var p := ReloadedPrefix(live, conf, n - 1);
      var f := ReloadOrder[n - 1];
      if IsStatic(f) || FieldValue(p, f) == FieldValue(conf, f) then p
      else Assign(p, f, FieldValue(conf, f))
  }

  /** The reports for the first n fields of ReloadOrder, each compared against the record of that moment. */
  function ReloadEvents(live: Params, conf: Params, n: nat): seq<Event>
    requires n <= |ReloadOrder|
  {
    if n == 0 then []
    else ReloadEvents(live, conf, n - 1) + EventFor(ReloadedPrefix(live, conf, n - 1), conf, ReloadOrder[n - 1])
  }

  /** The live record after a reload: static fields kept, dynamic ones taken from conf. */
  function Reloaded(live: Params, conf: Params): (r: Params)
    ensures ValidParams(live) && ValidParams(conf) ==> ValidParams(r)
    ensures forall f :: FieldValue(r, f) == if IsStatic(f) then FieldValue(live, f) else FieldValue(conf, f)
  {
    conf.(
      nbThreadsMigr := live.nbThreadsMigr,
      migrQueueSize := live.migrQueueSize,
      checkCopyStatusOnStartup := live.checkCopyStatusOnStartup)
  }

  // ---------------------------------------------------------------------------
  // The mutable record

  /**
   * A `migration_config_t` in memory (the live global or the one being read
   * into). Its one field holds the record; each assignment to a C struct
   * field becomes an update of that component alone.
   */
  class MigrationConfig {
    var params: Params

    constructor (p: Params)
      ensures params == p
    {
      params := p;
    }

    /** Fills the record with the defaults; the message is empty and the result 0. */
    method SetDefault() returns (rc: int, msg: string)
      modifies this
      ensures rc == 0 && msg == ""
      ensures params == Defaults()
      ensures params.runtimeInterval == 300 && params.nbThreadsMigr == 4 && params.migrQueueSize == 4096
      ensures params.dbRequestLimit == 10000 && params.maxMigrNbr == 0 && params.maxMigrVol == 0
      ensures params.checkCopyStatusOnStartup && params.checkCopyStatusDelay == 1800
      ensures params.migrationTimeout == 7200 && params.preMaintenanceWindow == 86400
      ensures params.maintMinMigrDelay == 1800
    {
      msg := "";
      params := params.(runtimeInterval := 5 * 60);
      params := params.(nbThreadsMigr := 4);
      params := params.(migrQueueSize := 4096);
      params := params.(dbRequestLimit := 10000);
      params := params.(maxMigrNbr := 0);
      params := params.(maxMigrVol := 0);
      params := params.(backupNewFiles := true);
      params := params.(checkCopyStatusOnStartup := true);
      params := params.(checkCopyStatusDelay := 30 * 60);
      params := params.(migrationTimeout := 2 * 3600);
      params := params.(preMaintenanceWindow := 24 * 3600);
      params := params.(maintMinMigrDelay := 30 * 60);
      rc := 0;
    }

    /**
     * Overlays the `Migration_Parameters` block of cfg onto the record. The
     * keys are taken in ReadOrder, the order of the source's stanzas: a found
     * and valid key overwrites its field, a missing one leaves it, and the
     * first failing one ends the read with its code, keeping the fields read
     * before it. On success the keys outside AllowedKeys are reported.
     */
    method Read(cfg: ConfigFile) returns (rc: int, unknown: set<string>)
      modifies this
      ensures ReadOutcome(rc, params, unknown) == ReadResult(cfg, old(params))
    {
      if MigrParamBlock !in cfg {
        // no parameter is mandatory
        return 0, {};
      }
      if !cfg[MigrParamBlock].Block? {
        return EINVAL, {};
      }
      var block := cfg[MigrParamBlock].params;
      ghost var spec := Overlay(block, ReadOrder, 0, params);
      var i := 0;
      while i < |ReadOrder|
        invariant 0 <= i <= |ReadOrder|
        invariant spec == Overlay(block, ReadOrder, i, params)
        decreases |ReadOrder| - i
      {
        match ReadOrder[i] {
          case SimulationMode =>
            // the deprecated key only draws a warning when it is set
            var _ := GetParam(block, SimulationModeKey, Unconstrained);
          case Known(f, c) =>
            var g := GetParam(block, KeyOf(f), c);
            if Fails(g) {
              return g.rc, {};
            } else if g.rc != ENOENT {
              params := Assign(params, f, g.value);
            }
        }
        i := i + 1;
      }
      unknown := block.Keys - AllowedKeys;
      rc := 0;
    }

    /**
     * Reloads conf into this live record, comparing the fields in
     * ReloadOrder: a differing static field is only reported, a differing
     * dynamic one is reported with its old and new values and copied.
     */
    method Reload(conf: Params) returns (rc: int, events: seq<Event>)
      modifies this
      ensures rc == 0
      ensures params == Reloaded(old(params), conf)
      ensures events == ReloadEvents(old(params), conf, |ReloadOrder|)
    {
      ghost var live := params;
      events := [];
      for k := 0 to |ReloadOrder|
        invariant params == ReloadedPrefix(live, conf, k)
        invariant events == ReloadEvents(live, conf, k)
      {
        var f := ReloadOrder[k];
        if FieldValue(params, f) != FieldValue(conf, f) {
          if IsStatic(f) {
            events := events + [NotApplied(f)];
          } else {
            events := events + [Updated(f, FieldValue(params, f), FieldValue(conf, f))];
            params := Assign(params, f, FieldValue(conf, f));
          }
        }
      }
      ReloadedAllFields(live, conf);
      rc := 0;
    }
  }

  // ---------------------------------------------------------------------------
  // Properties of Assign and of the key table

  /** Assigning one field leaves every other field as it was. */
  lemma AssignFrame(p: Params, f: Field, v: int, g: Field)
    requires g != f
    ensures FieldValue(Assign(p, f, v), g) == FieldValue(p, g)
  {
  }

  /** Two records that agree on every field are equal. */
  lemma ParamsExt(p: Params, q: Params)
    requires forall f :: FieldValue(p, f) == FieldValue(q, f)
    ensures p == q
  {
    assert FieldValue(p, RuntimeInterval) == FieldValue(q, RuntimeInterval);
    assert FieldValue(p, NbThreadsMigr) == FieldValue(q, NbThreadsMigr);
    assert FieldValue(p, MigrQueueSize) == FieldValue(q, MigrQueueSize);
    assert FieldValue(p, DbRequestLimit) == FieldValue(q, DbRequestLimit);
    assert FieldValue(p, MaxMigrNbr) == FieldValue(q, MaxMigrNbr);
    assert FieldValue(p, MaxMigrVol) == FieldValue(q, MaxMigrVol);
    assert FieldValue(p, BackupNewFiles) == FieldValue(q, BackupNewFiles);
    assert FieldValue(p, CheckCopyStatusOnStartup) == FieldValue(q, CheckCopyStatusOnStartup);
    assert FieldValue(p, CheckCopyStatusDelay) == FieldValue(q, CheckCopyStatusDelay);
    assert FieldValue(p, MigrationTimeout) == FieldValue(q, MigrationTimeout);
    assert FieldValue(p, PreMaintenanceWindow) == FieldValue(q, PreMaintenanceWindow);
    assert FieldValue(p, MaintMinMigrDelay) == FieldValue(q, MaintMinMigrDelay);
  }

  /** No field appears twice among the known keys. */
  predicate DistinctFields(keys: seq<ParamKey>) {
    forall a, b :: 0 <= a < b < |keys| && keys[a].Known? && keys[b].Known? ==> keys[a].field != keys[b].field
  }

  /** The flags a key is read with are at least those ValidParams needs of its field. */
  predicate Guarded(k: ParamKey) {
    k.Known? ==>
      match k.field
      case RuntimeInterval | MigrationTimeout | CheckCopyStatusDelay | NbThreadsMigr | MigrQueueSize =>
        k.constraint == PositiveNotNull
      case MaxMigrNbr | MaxMigrVol | DbRequestLimit | PreMaintenanceWindow | MaintMinMigrDelay =>
        k.constraint != Unconstrained
      case BackupNewFiles | CheckCopyStatusOnStartup => true
  }

  /** The fields read with INT_PARAM_NOT_NULL, where 0 is refused. */
  predicate NotNull(f: Field) {
    f == RuntimeInterval || f == MigrationTimeout || f == CheckCopyStatusDelay
    || f == NbThreadsMigr || f == MigrQueueSize
  }

  /** Where each field's key sits in ReadOrder. */
  function ReadIndex(f: Field): (j: nat)
    ensures j < |ReadOrder| && ReadOrder[j].Known? && ReadOrder[j].field == f
  {
    match f
    case RuntimeInterval => 0
    case MaxMigrNbr => 1
    case MaxMigrVol => 2
    case MigrationTimeout => 3
    case BackupNewFiles => 4
    case CheckCopyStatusOnStartup => 5
    case CheckCopyStatusDelay => 6
    case NbThreadsMigr => 8
    case MigrQueueSize => 9
    case DbRequestLimit => 10
    case PreMaintenanceWindow => 11
    case MaintMinMigrDelay => 12
  }

  /** The read table names every field once, under flags that keep the record valid. */
  lemma ReadOrderWellFormed()
    ensures DistinctFields(ReadOrder)
    ensures forall k :: k in ReadOrder ==> Guarded(k)
    ensures forall j :: 0 <= j < |ReadOrder| && ReadOrder[j].Known? ==>
      (ReadOrder[j].constraint == PositiveNotNull <==> NotNull(ReadOrder[j].field))
  {
  }

  /** Every field's key is in the allowed list. */
  lemma KeysAllowed(f: Field)
    ensures KeyOf(f) in AllowedKeys
  {
  }

  /** Distinct fields have distinct configuration keys. */
  lemma KeyOfInjective(f: Field, g: Field)
    requires KeyOf(f) == KeyOf(g)
    ensures f == g
  {
  }

  /** The deprecated key is not in the allowed list, so Read reports it as unknown. */
  lemma SimulationModeNotAllowed()
    ensures SimulationModeKey !in AllowedKeys
  {
  }

  // ---------------------------------------------------------------------------
  // Properties of the overlay and of Read

  /** One key changes at most its own field. */
  lemma NextFrame(block: ParamBlock, k: ParamKey, p: Params, f: Field)
    requires k.Known? ==> k.field != f
    ensures FieldValue(Next(block, k, p), f) == FieldValue(p, f)
  {
    if k.Known? {
      var g := GetParam(block, KeyOf(k.field), k.constraint);
      if g.rc == 0 {
        AssignFrame(p, k.field, g.value, f);
      }
    }
  }

  /** A field no remaining key names keeps its value. */
  lemma {:induction false} OverlayUntouched(block: ParamBlock, keys: seq<ParamKey>, i: nat, p: Params, f: Field)
    requires i <= |keys|
    requires forall j :: i <= j < |keys| && keys[j].Known? ==> keys[j].field != f
    ensures FieldValue(Overlay(block, keys, i, p).conf, f) == FieldValue(p, f)
    decreases |keys| - i
  {
    if i < |keys| && !KeyFails(block, keys[i]) {
      NextFrame(block, keys[i], p, f);
      OverlayUntouched(block, keys, i + 1, Next(block, keys[i], p), f);
    }
  }

  /** Key j itself: a failing lookup keeps the field, a missing one too, a found one sets it for good. */
  lemma OverlayFieldHere(block: ParamBlock, keys: seq<ParamKey>, p: Params, j: nat)
    requires j < |keys| && keys[j].Known? && DistinctFields(keys)
    ensures
      var f := keys[j].field;
      var r := GetParam(block, KeyOf(f), keys[j].constraint);
      FieldValue(Overlay(block, keys, j, p).conf, f)
        == if !Fails(r) && r.rc == 0 then Stored(f, r.value) else FieldValue(p, f)
  {
    if !KeyFails(block, keys[j]) {
      OverlayUntouched(block, keys, j + 1, Next(block, keys[j], p), keys[j].field);
    }
  }

  /**
   * The value the overlay leaves in the field of key j: the value read for it
   * when j comes before the first failing key and the key is found, the old
   * value otherwise (the key is missing, or the read stopped at or before it).
   */
  lemma {:induction false} OverlayField(block: ParamBlock, keys: seq<ParamKey>, i: nat, p: Params, j: nat)
    requires i <= j < |keys| && keys[j].Known? && DistinctFields(keys)
    ensures
      var f := keys[j].field;
      var r := GetParam(block, KeyOf(f), keys[j].constraint);
      FieldValue(Overlay(block, keys, i, p).conf, f)
        == if j < FirstFailure(block, keys, i) && r.rc == 0 then Stored(f, r.value) else FieldValue(p, f)
    decreases |keys| - i
  {
    if i == j {
      OverlayFieldHere(block, keys, p, j);
    } else if !KeyFails(block, keys[i]) {
      NextFrame(block, keys[i], p, keys[j].field);
      OverlayField(block, keys, i + 1, Next(block, keys[i], p), j);
    }
  }

  /** The overlay's code is the code of the first failing key, 0 when none fails. */
  lemma {:induction false} OverlayStatus(block: ParamBlock, keys: seq<ParamKey>, i: nat, p: Params)
    requires i <= |keys|
    ensures
      var n := FirstFailure(block, keys, i);
      Overlay(block, keys, i, p).rc
        == if n < |keys| then GetParam(block, KeyOf(keys[n].field), keys[n].constraint).rc else 0
    decreases |keys| - i
  {
    if i < |keys| && !KeyFails(block, keys[i]) {
      OverlayStatus(block, keys, i + 1, Next(block, keys[i], p));
    }
  }

  /** Keys read with flags that suit their fields keep the record valid. */
  lemma {:induction false} OverlayKeepsValid(block: ParamBlock, keys: seq<ParamKey>, i: nat, p: Params)
    requires i <= |keys| && ValidParams(p)
    requires forall k :: k in keys ==> Guarded(k)
    ensures ValidParams(Overlay(block, keys, i, p).conf)
    decreases |keys| - i
  {
    if i < |keys| && !KeyFails(block, keys[i]) {
      assert Guarded(keys[i]);
      OverlayKeepsValid(block, keys, i + 1, Next(block, keys[i], p));
    }
  }

  /** Two blocks that agree on every key the table names give the same overlay. */
  lemma {:induction false} OverlaySameKeys(b1: ParamBlock, b2: ParamBlock, keys: seq<ParamKey>, i: nat, p: Params)
    requires i <= |keys|
    requires forall j :: i <= j < |keys| && keys[j].Known? ==>
      var name := KeyOf(keys[j].field);
      (name in b1 <==> name in b2) && (name in b1 ==> b1[name] == b2[name])
    ensures Overlay(b1, keys, i, p) == Overlay(b2, keys, i, p)
    decreases |keys| - i
  {
    if i < |keys| {
      if keys[i].Known? {
        assert GetParam(b1, KeyOf(keys[i].field), keys[i].constraint)
            == GetParam(b2, KeyOf(keys[i].field), keys[i].constraint);
      }
      OverlaySameKeys(b1, b2, keys, i + 1, Next(b1, keys[i], p));
    }
  }

  /**
   * Read, field by field: a field whose key comes before the first failing
   * key and is found takes the value read; every other field keeps its value.
   */
  lemma ReadField(cfg: ConfigFile, p: Params, f: Field)
    requires MigrParamBlock in cfg && cfg[MigrParamBlock].Block?
    ensures
      var block := cfg[MigrParamBlock].params;
      var j := ReadIndex(f);
      var r := GetParam(block, KeyOf(f), ReadOrder[j].constraint);
      FieldValue(ReadResult(cfg, p).conf, f)
        == if j < FirstFailure(block, ReadOrder, 0) && r.rc == 0 then Stored(f, r.value) else FieldValue(p, f)
  {
    ReadOrderWellFormed();
    OverlayField(cfg[MigrParamBlock].params, ReadOrder, 0, p, ReadIndex(f));
  }

  /** Read's code is that of the first failing key, 0 when none fails. */
  lemma ReadStatus(cfg: ConfigFile, p: Params)
    requires MigrParamBlock in cfg && cfg[MigrParamBlock].Block?
    ensures
      var block := cfg[MigrParamBlock].params;
      var n := FirstFailure(block, ReadOrder, 0);
      ReadResult(cfg, p).rc == if n < |ReadOrder| then GetParam(block, KeyOf(ReadOrder[n].field), ReadOrder[n].constraint).rc else 0
  {
    OverlayStatus(cfg[MigrParamBlock].params, ReadOrder, 0, p);
  }

  /** A key missing from the block leaves its field as it was. */
  lemma ReadMissingKeyKeepsField(cfg: ConfigFile, p: Params, f: Field)
    requires MigrParamBlock in cfg ==> cfg[MigrParamBlock].Block? && KeyOf(f) !in cfg[MigrParamBlock].params
    ensures FieldValue(ReadResult(cfg, p).conf, f) == FieldValue(p, f)
  {
    if MigrParamBlock in cfg {
      ReadField(cfg, p, f);
    }
  }

  /** When Read succeeds, every key found in the block has set its field. */
  lemma ReadSuccessSetsFoundKeys(cfg: ConfigFile, p: Params, f: Field, v: int)
    requires MigrParamBlock in cfg && cfg[MigrParamBlock].Block?
    requires KeyOf(f) in cfg[MigrParamBlock].params && cfg[MigrParamBlock].params[KeyOf(f)] == Ok(v)
    ensures ReadResult(cfg, p).rc == 0 ==> FieldValue(ReadResult(cfg, p).conf, f) == Stored(f, v)
  {
    var block := cfg[MigrParamBlock].params;
    ReadField(cfg, p, f);
    ReadStatus(cfg, p);
    if ReadResult(cfg, p).rc == 0 {
      assert !KeyFails(block, ReadOrder[ReadIndex(f)]);
    }
  }

  /** Read never breaks the bounds of a valid record, whatever the block holds. */
  lemma ReadKeepsValid(cfg: ConfigFile, p: Params)
    requires ValidParams(p)
    ensures ValidParams(ReadResult(cfg, p).conf)
  {
    if MigrParamBlock in cfg && cfg[MigrParamBlock].Block? {
      ReadOrderWellFormed();
      OverlayKeepsValid(cfg[MigrParamBlock].params, ReadOrder, 0, p);
    }
  }

  /**
   * A key outside the allowed list (simulation_mode among them) changes
   * neither the code nor the record; it is only added to the reported keys.
   */
  lemma ReadIgnoresOtherKeys(cfg: ConfigFile, p: Params, name: string, l: Lookup)
    requires MigrParamBlock in cfg && cfg[MigrParamBlock].Block?
    requires name !in AllowedKeys
    ensures
      var block := cfg[MigrParamBlock].params;
      var r1 := ReadResult(cfg, p);
      var r2 := ReadResult(cfg[MigrParamBlock := Block(block[name := l])], p);
      r2.rc == r1.rc && r2.conf == r1.conf
      && r2.unknown == if r1.rc == 0 then r1.unknown + {name} else {}
  {
    var block := cfg[MigrParamBlock].params;
    forall j | 0 <= j < |ReadOrder| && ReadOrder[j].Known?
      ensures KeyOf(ReadOrder[j].field) != name
    {
      KeysAllowed(ReadOrder[j].field);
    }
    OverlaySameKeys(block, block[name := l], ReadOrder, 0, p);
  }

  /** In a block holding one key, only that key's lookup can fail. */
  lemma SingleKeyFirstFailure(f: Field, l: Lookup)
    ensures
      var block := map[KeyOf(f) := l];
      var j := ReadIndex(f);
      FirstFailure(block, ReadOrder, 0) == if KeyFails(block, ReadOrder[j]) then j else |ReadOrder|
  {
    var block := map[KeyOf(f) := l];
    var j := ReadIndex(f);
    var n := FirstFailure(block, ReadOrder, 0);
    ReadOrderWellFormed();
    if n < |ReadOrder| {
      KeyOfInjective(ReadOrder[n].field, f);
    }
  }

  /** A block holding only the key of f: the read fails with that lookup's code, or sets f and nothing else. */
  lemma ReadSingleKey(p: Params, f: Field, l: Lookup)
    ensures
      var block := map[KeyOf(f) := l];
      var r := ReadResult(map[MigrParamBlock := Block(block)], p);
      var g := GetParam(block, KeyOf(f), ReadOrder[ReadIndex(f)].constraint);
      && r.rc == (if Fails(g) then g.rc else 0)
      && FieldValue(r.conf, f) == (if g.rc == 0 then Stored(f, g.value) else FieldValue(p, f))
  {
    var cfg := map[MigrParamBlock := Block(map[KeyOf(f) := l])];
    SingleKeyFirstFailure(f, l);
    ReadStatus(cfg, p);
    ReadField(cfg, p, f);
  }

  /**
   * A block holding only f = 0: the read fails with EINVAL for the
   * INT_PARAM_NOT_NULL fields and succeeds, storing 0, for the others.
   */
  lemma ReadZero(p: Params, f: Field)
    ensures
      var r := ReadResult(map[MigrParamBlock := Block(map[KeyOf(f) := Ok(0)])], p);
      && (r.rc == if NotNull(f) then EINVAL else 0)
      && (!NotNull(f) ==> FieldValue(r.conf, f) == Stored(f, 0))
  {
    ReadOrderWellFormed();
    ReadSingleKey(p, f, Ok(0));
  }

  // ---------------------------------------------------------------------------
  // Properties of Reload

  /** The compare-and-copy order names every field once. */
  lemma ReloadOrderDistinct()
    ensures forall a, b :: 0 <= a < b < |ReloadOrder| ==> ReloadOrder[a] != ReloadOrder[b]
  {
  }

  /** Every field is compared by a reload. */
  lemma ReloadOrderCovers(f: Field)
    ensures f in ReloadOrder
  {
    var k := match f
      case NbThreadsMigr => 0 case MigrQueueSize => 1 case CheckCopyStatusOnStartup => 2
      case MaxMigrNbr => 3 case MaxMigrVol => 4 case RuntimeInterval => 5
      case MigrationTimeout => 6 case BackupNewFiles => 7 case DbRequestLimit => 8
      case CheckCopyStatusDelay => 9 case PreMaintenanceWindow => 10 case MaintMinMigrDelay => 11;
    assert ReloadOrder[k] == f;
  }

  /** After the first n comparisons, a dynamic field already compared holds conf's value; every other field holds live's. */
  lemma {:induction false} ReloadedPrefixField(live: Params, conf: Params, n: nat, f: Field)
    requires n <= |ReloadOrder|
    ensures FieldValue(ReloadedPrefix(live, conf, n), f)
      == if f in ReloadOrder[..n] && !IsStatic(f) then FieldValue(conf, f) else FieldValue(live, f)
  {
    if n > 0 {
      ReloadedPrefixField(live, conf, n - 1, f);
      var g := ReloadOrder[n - 1];
      assert ReloadOrder[..n] == ReloadOrder[..n - 1] + [g];
      var p := ReloadedPrefix(live, conf, n - 1);
      if g != f && !IsStatic(g) && FieldValue(p, g) != FieldValue(conf, g) {
        AssignFrame(p, g, FieldValue(conf, g), f);
      }
    }
  }

  /** The loop over ReloadOrder leaves exactly the record Reloaded describes. */
  lemma ReloadedAllFields(live: Params, conf: Params)
    ensures ReloadedPrefix(live, conf, |ReloadOrder|) == Reloaded(live, conf)
  {
    ReloadOrderDistinct();
    assert ReloadOrder[..|ReloadOrder|] == ReloadOrder;
    var q := ReloadedPrefix(live, conf, |ReloadOrder|);
    forall f ensures FieldValue(q, f) == FieldValue(Reloaded(live, conf), f) {
      ReloadOrderCovers(f);
      ReloadedPrefixField(live, conf, |ReloadOrder|, f);
    }
    ParamsExt(q, Reloaded(live, conf));
  }

  /**
   * The reports of the first n comparisons: a static field is reported as not
   * applied exactly when it differs, a dynamic one as updated from live's
   * value to conf's exactly when they differ.
   */
  lemma {:induction false} ReloadEventsPrefix(live: Params, conf: Params, n: nat, f: Field, a: int, b: int)
    requires n <= |ReloadOrder|
    ensures NotApplied(f) in ReloadEvents(live, conf, n)
      <==> f in ReloadOrder[..n] && IsStatic(f) && FieldValue(live, f) != FieldValue(conf, f)
    ensures Updated(f, a, b) in ReloadEvents(live, conf, n)
      <==> f in ReloadOrder[..n] && !IsStatic(f) && a == FieldValue(live, f) && b == FieldValue(conf, f) && a != b
  {
    if n > 0 {
      ReloadEventsPrefix(live, conf, n - 1, f, a, b);
      ReloadOrderDistinct();
      var g := ReloadOrder[n - 1];
      assert ReloadOrder[..n] == ReloadOrder[..n - 1] + [g];
      assert g !in ReloadOrder[..n - 1];
      ReloadedPrefixField(live, conf, n - 1, g);
    }
  }

  /** The reports of a whole reload, one per differing field. */
  lemma ReloadEventsExact(live: Params, conf: Params, f: Field, a: int, b: int)
    ensures NotApplied(f) in ReloadEvents(live, conf, |ReloadOrder|)
      <==> IsStatic(f) && FieldValue(live, f) != FieldValue(conf, f)
    ensures Updated(f, a, b) in ReloadEvents(live, conf, |ReloadOrder|)
      <==> !IsStatic(f) && a == FieldValue(live, f) && b == FieldValue(conf, f) && a != b
  {
    ReloadOrderCovers(f);
    assert ReloadOrder[..|ReloadOrder|] == ReloadOrder;
    ReloadEventsPrefix(live, conf, |ReloadOrder|, f, a, b);
  }

  /** Reloading the same record twice: the second reload changes nothing and updates nothing. */
  lemma ReloadIdempotent(live: Params, conf: Params, f: Field, a: int, b: int)
    ensures Reloaded(Reloaded(live, conf), conf) == Reloaded(live, conf)
    ensures Updated(f, a, b) !in ReloadEvents(Reloaded(live, conf), conf, |ReloadOrder|)
  {
    ReloadEventsExact(Reloaded(live, conf), conf, f, a, b);
  }

  /** When the static fields agree, the live record becomes conf and nothing is reported as not applied. */
  lemma ReloadSameStatic(live: Params, conf: Params, f: Field)
    requires live.nbThreadsMigr == conf.nbThreadsMigr && live.migrQueueSize == conf.migrQueueSize
    requires live.checkCopyStatusOnStartup == conf.checkCopyStatusOnStartup
    ensures Reloaded(live, conf) == conf
    ensures NotApplied(f) !in ReloadEvents(live, conf, |ReloadOrder|)
  {
    ReloadEventsExact(live, conf, f, 0, 0);
  }

  /** The reload scenario: the defaults are live, and the new record raises the thread count to 8 and the count cap to 1000. */
  function ScenarioConf(): Params { Defaults().(nbThreadsMigr := 8, maxMigrNbr := 1000) }

  /** In the scenario the record changes once, when the count cap is compared (the fourth comparison). */
  lemma ScenarioPrefix(k: nat)
    requires k <= |ReloadOrder|
    ensures ReloadedPrefix(Defaults(), ScenarioConf(), k)
      == if k <= 3 then Defaults() else Defaults().(maxMigrNbr := 1000)
  {
    var live, conf := Defaults(), ScenarioConf();
    var q := ReloadedPrefix(live, conf, k);
    var expected := if k <= 3 then live else live.(maxMigrNbr := 1000);
    forall f ensures FieldValue(q, f) == FieldValue(expected, f) {
      ReloadedPrefixField(live, conf, k, f);
      if f == MaxMigrNbr && k > 3 {
        assert ReloadOrder[..k][3] == MaxMigrNbr;
      } else if f == MaxMigrNbr {
        assert ReloadOrder[..k] == ReloadOrder[..3][..k];
      }
    }
    ParamsExt(q, expected);
  }

  /**
   * In the scenario the live thread count stays 4 and is reported as not
   * applied, the cap becomes 1000 at once with an update report, and
   * nothing else is reported.
   */
  lemma ReloadScenario()
    ensures Reloaded(Defaults(), ScenarioConf()).nbThreadsMigr == 4
    ensures Reloaded(Defaults(), ScenarioConf()).maxMigrNbr == 1000
    ensures ReloadEvents(Defaults(), ScenarioConf(), |ReloadOrder|)
      == [NotApplied(NbThreadsMigr), Updated(MaxMigrNbr, 0, 1000)]
  {
    var live, conf := Defaults(), ScenarioConf();
    ScenarioPrefix(3);
    ScenarioPrefix(4);
    ScenarioPrefix(5);
    ScenarioPrefix(6);
    ScenarioPrefix(7);
    ScenarioPrefix(8);
    ScenarioPrefix(9);
    ScenarioPrefix(10);
    ScenarioPrefix(11);
    assert ReloadEvents(live, conf, 3) == [NotApplied(NbThreadsMigr)];
    var evs := [NotApplied(NbThreadsMigr), Updated(MaxMigrNbr, 0, 1000)];
    assert ReloadEvents(live, conf, 4) == evs;
    assert ReloadEvents(live, conf, 5) == evs;
    assert ReloadEvents(live, conf, 6) == evs;
    assert ReloadEvents(live, conf, 7) == evs;
    assert ReloadEvents(live, conf, 8) == evs;
    assert ReloadEvents(live, conf, 9) == evs;
    assert ReloadEvents(live, conf, 10) == evs;
    assert ReloadEvents(live, conf, 11) == evs;
    assert ReloadEvents(live, conf, 12) == evs;
  }
}
