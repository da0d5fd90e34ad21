/**
 * The undo-remove tool: the path filter it builds from the global
 * `path_filter` argument, and the loop that restores every listed
 * soft-removed entry (recover it in the backend, drop it from the
 * soft-removed journal, insert or update it in the entry catalog).
 */
module UndoRm {
  import opened Wrappers
  import opened PathFilter

  /** A file identifier (sequence, object id, version). */
  datatype Fid = Fid(sequence: nat, oid: nat, ver: nat)

  /** A journal row: the entry's last known path and backend path ("" when not known). */
  datatype Removed = Removed(lastKnownPath: string, backendPath: string)

  /** An entry as the listing cursor hands it out: its identifier and its journal row. */
  datatype RemovedEntry = RemovedEntry(id: Fid, row: Removed)

  /** The attributes the tool sets or stores: full path and backend path, each possibly unset. */
  datatype AttrSet = AttrSet(fullpath: Option<string>, backendpath: Option<string>)

  /** recov_status_t: full success, success with differences, or a failure. */
  datatype RecovStatus = RsOk | RsDelta | RsFailure(code: int)

  predicate Recovered(st: RecovStatus) {
    st == RsOk || st == RsDelta
  }

  /** What the backend recover operation gives back: a status, the new identifier and its attributes. */
  datatype Recovery = Recovery(status: RecovStatus, newId: Fid, newAttrs: AttrSet)

  /** Return codes of the list manager calls (DB_SUCCESS is 0). */
  datatype DbStatus = DbSuccess | DbAlreadyExists | DbNotExists | DbRequestFailed

  datatype DbOp = DiscardOp | InsertOp | UpdateOp

  /** Which list manager calls fail with a request error: an oracle for database faults. */
  type Faults = (DbOp, Fid) -> bool

  /** The two tables the tool touches: the soft-removed journal and the entry catalog. */
  datatype Stores = Stores(journal: map<Fid, Removed>, catalog: map<Fid, AttrSet>)

  datatype DbResult = DbResult(stores: Stores, status: DbStatus)

  // ---------------------------------------------------------------------------
  // The list manager calls

  /** ListMgr_SoftRemove_Discard: removes the journal row of id; NotExists when there is none. */
  function DbDiscard(s: Stores, id: Fid, fault: Faults): (r: DbResult)
    ensures r.stores.catalog == s.catalog
    ensures r.status == DbSuccess <==> !fault(DiscardOp, id) && id in s.journal
    ensures r.stores.journal == if r.status == DbSuccess then s.journal - {id} else s.journal
  {
    if fault(DiscardOp, id) then DbResult(s, DbRequestFailed)
    else if id !in s.journal then DbResult(s, DbNotExists)
    else DbResult(s.(journal := s.journal - {id}), DbSuccess)
  }

  /** ListMgr_Insert: adds a catalog row; AlreadyExists when id has one. */
  function DbInsert(s: Stores, id: Fid, a: AttrSet, fault: Faults): (r: DbResult)
    ensures r.stores.journal == s.journal
    ensures r.status == DbAlreadyExists <==> !fault(InsertOp, id) && id in s.catalog
    ensures r.status == DbSuccess <==> !fault(InsertOp, id) && id !in s.catalog
    ensures r.stores.catalog == if r.status == DbSuccess then s.catalog[id := a] else s.catalog
  {
    if fault(InsertOp, id) then DbResult(s, DbRequestFailed)
    else if id in s.catalog then DbResult(s, DbAlreadyExists)
    else DbResult(s.(catalog := s.catalog[id := a]), DbSuccess)
  }

  /** ListMgr_Update: replaces the catalog row of id; NotExists when there is none. */
  function DbUpdate(s: Stores, id: Fid, a: AttrSet, fault: Faults): (r: DbResult)
    ensures r.stores.journal == s.journal
    ensures r.status == DbSuccess <==> !fault(UpdateOp, id) && id in s.catalog
    ensures r.stores.catalog == if r.status == DbSuccess then s.catalog[id := a] else s.catalog
  {
    if fault(UpdateOp, id) then DbResult(s, DbRequestFailed)
    else if id !in s.catalog then DbResult(s, DbNotExists)
    else DbResult(s.(catalog := s.catalog[id := a]), DbSuccess)
  }

  /** The journal entries the cursor yields: those of `order` (the catalog's own enumeration) the filter accepts. */
  function Listing(journal: map<Fid, Removed>, cs: seq<Clause>, order: seq<Fid>): (l: seq<RemovedEntry>)
    ensures forall e :: e in l ==>
      e.id in journal && journal[e.id] == e.row
      && e.id in order && Accepts(cs, e.row.lastKnownPath)
  {
    if |order| == 0 then []
    else
      var rest := Listing(journal, cs, order[..|order| - 1]);
      var id := order[|order| - 1];
      if id in journal && Accepts(cs, journal[id].lastKnownPath) then
        rest + [RemovedEntry(id, journal[id])]
      else rest
  }

  /** An enumeration of a journal: each of its ids, once. */
  predicate Enumerates(order: seq<Fid>, journal: map<Fid, Removed>) {
    && (forall id :: id in journal ==> id in order)
    && (forall a, b :: 0 <= a < b < |order| ==> order[a] != order[b])
  }

  /** Every journal row the filter accepts is in the listing. */
  predicate Complete(l: seq<RemovedEntry>, journal: map<Fid, Removed>, cs: seq<Clause>) {
    forall id :: id in journal && Accepts(cs, journal[id].lastKnownPath) ==> RemovedEntry(id, journal[id]) in l
  }

  /** No entry of the listing appears twice. */
  predicate DistinctIds(l: seq<RemovedEntry>) {
    forall a, b :: 0 <= a < b < |l| ==> l[a].id != l[b].id
  }

  // ---------------------------------------------------------------------------
  // Restoring one entry, and a batch

  /** The attributes handed to recover: the full path always, the backend path only when known. */
  function RestoreAttrs(e: RemovedEntry): (a: AttrSet)
    ensures a.fullpath == Some(e.row.lastKnownPath)
    ensures a.backendpath.Some? <==> e.row.backendPath != ""
    ensures a.backendpath.Some? ==> a.backendpath.value == e.row.backendPath
  {
    AttrSet(Some(e.row.lastKnownPath), if e.row.backendPath != "" then Some(e.row.backendPath) else None)
  }

  /** What happened to one listed entry. */
  datatype Outcome =
    | Skipped                                        // no known path
    | RecoverFailed(status: RecovStatus)             // recover did not succeed
    | Restored(discard: DbStatus, write: DbStatus)   // recovered; journal and catalog results

  /** Insert, falling back to Update when the row already exists. */
  function Upsert(s: Stores, id: Fid, a: AttrSet, fault: Faults): (r: DbResult)
    ensures r.stores.journal == s.journal
    ensures r.status == DbSuccess <==> !fault(InsertOp, id) && (id in s.catalog ==> !fault(UpdateOp, id))
    ensures r.stores.catalog == if r.status == DbSuccess then s.catalog[id := a] else s.catalog
  {
    var ins := DbInsert(s, id, a, fault);
    if ins.status == DbAlreadyExists then DbUpdate(ins.stores, id, a, fault) else ins
  }

  datatype Step = Step(stores: Stores, outcome: Outcome)

  /** The effect of the loop body on one entry. */
  function RestoreOne(s: Stores, e: RemovedEntry, recover: (Fid, AttrSet) -> Recovery, fault: Faults): Step {
    if e.row.lastKnownPath == "" then Step(s, Skipped)
    else
      var r := recover(e.id, RestoreAttrs(e));
      if !Recovered(r.status) then Step(s, RecoverFailed(r.status))
      else
        var d := DbDiscard(s, e.id, fault);
        var w := Upsert(d.stores, r.newId, r.newAttrs, fault);
        Step(w.stores, Restored(d.status, w.status))
  }

  datatype Batch = Batch(stores: Stores, outcomes: seq<Outcome>)

  /** The loop over a whole listing: every entry is handled in turn, whatever happened to the ones before. */
  function RestoreAll(s: Stores, es: seq<RemovedEntry>, recover: (Fid, AttrSet) -> Recovery, fault: Faults): (b: Batch)
    ensures |b.outcomes| == |es|
    ensures forall k :: 0 <= k < |es| ==> (b.outcomes[k] == Skipped <==> es[k].row.lastKnownPath == "")
  {
    if |es| == 0 then Batch(s, [])
    else
      var b := RestoreAll(s, es[..|es| - 1], recover, fault);
      var st := RestoreOne(b.stores, es[|es| - 1], recover, fault);
      Batch(st.stores, b.outcomes + [st.outcome])
  }

  // ---------------------------------------------------------------------------
  // The mutable state

  /** The list manager handle: the database it reaches and the calls the tool makes on it. */
  class ListManager {
    var db: Stores
    const fault: Faults

    constructor (db0: Stores, fault: Faults)
      ensures db == db0 && this.fault == fault
    {
      db := db0;
      this.fault := fault;
    }

    /**
     * ListMgr_RmList: the filtered journal, or nothing when the listing cannot
     * be obtained. `order` is the database's enumeration of the journal: every
     * row exactly once.
     */
    method RmList(filter: Filter, order: seq<Fid>, available: bool) returns (list: Option<seq<RemovedEntry>>)
      requires Enumerates(order, db.journal)
      ensures list == if available then Some(Listing(db.journal, filter.clauses, order)) else None
      ensures list.Some? ==> Complete(list.value, db.journal, filter.clauses) && DistinctIds(list.value)
    {
      if !available {
        return None;
      }
      var l := Listing(db.journal, filter.clauses, order);
      ListingEnumerates(db.journal, filter.clauses, order);
      list := Some(l);
    }

    method SoftRemoveDiscard(id: Fid) returns (st: DbStatus)
      modifies this
      ensures DbResult(db, st) == DbDiscard(old(db), id, fault)
    {
      var r := DbDiscard(db, id, fault);
      db, st := r.stores, r.status;
    }

    method Insert(id: Fid, a: AttrSet) returns (st: DbStatus)
      modifies this
      ensures DbResult(db, st) == DbInsert(old(db), id, a, fault)
    {
      var r := DbInsert(db, id, a, fault);
      db, st := r.stores, r.status;
    }

    method Update(id: Fid, a: AttrSet) returns (st: DbStatus)
      modifies this
      ensures DbResult(db, st) == DbUpdate(old(db), id, a, fault)
    {
      var r := DbUpdate(db, id, a, fault);
      db, st := r.stores, r.status;
    }
  }

  /** The tool's globals: the path filter argument and the list manager handle. */
  class UndoRmTool {
    var pathFilter: string
    const lmgr: ListManager

    constructor (pathFilter: string, lmgr: ListManager)
      ensures this.pathFilter == pathFilter && this.lmgr == lmgr
    {
      this.pathFilter := pathFilter;
      this.lmgr := lmgr;
    }

    /**
     * mk_path_filter: appends the path clauses to filter when a path filter
     * is set, initialising the filter first when the caller passes a flag
     * that says it is not initialised yet; a trailing slash is removed from
     * the global path filter.
     */
    method MkPathFilter(filter: Filter, initialized: Option<bool>) returns (rc: int, initializedOut: Option<bool>)
      modifies this, filter
      ensures rc == 0
      ensures pathFilter == Normalized(old(pathFilter))
      ensures filter.clauses
        == (if old(pathFilter) != "" && initialized == Some(false) then [] else old(filter.clauses))
           + PathClauses(old(pathFilter))
      ensures initializedOut == if old(pathFilter) != "" && initialized == Some(false) then Some(true) else initialized
    {
      initializedOut := initialized;
      if pathFilter != "" {
        if initialized == Some(false) {
          filter.Init();
          initializedOut := Some(true);
        }
        var len := |pathFilter|;
        if pathFilter[len - 1] != '/' {
          filter.Add(pathFilter, Begin);
          filter.Add(pathFilter + "/*", OrEnd);
        } else {
          var regexp := pathFilter + "*";
          filter.Add(regexp, Begin);
          pathFilter := pathFilter[..len - 1];
          filter.Add(pathFilter, OrEnd);
        }
      }
      rc := 0;
    }

    /** The loop body of undo_rm for one listed entry. */
    method RestoreEntry(e: RemovedEntry, recover: (Fid, AttrSet) -> Recovery) returns (o: Outcome)
      modifies lmgr
      ensures Step(lmgr.db, o) == RestoreOne(old(lmgr.db), e, recover, lmgr.fault)
    {
      if e.row.lastKnownPath == "" {
        // path unknown: reported and skipped
        return Skipped;
      }
      var r := recover(e.id, RestoreAttrs(e));
      if Recovered(r.status) {
        // a failed discard is reported and does not stop the catalog write
        var d := lmgr.SoftRemoveDiscard(e.id);
        var st := lmgr.Insert(r.newId, r.newAttrs);
        if st == DbAlreadyExists {
          st := lmgr.Update(r.newId, r.newAttrs);
        }
        o := Restored(d, st);
      } else {
        o := RecoverFailed(r.status);
      }
    }

    /** The loop of undo_rm: every listed entry is handled in turn and counted. */
    method RestoreEntries(entries: seq<RemovedEntry>, recover: (Fid, AttrSet) -> Recovery)
      returns (total: nat, outcomes: seq<Outcome>)
      modifies lmgr
      ensures total == |entries|
      ensures Batch(lmgr.db, outcomes) == RestoreAll(old(lmgr.db), entries, recover, lmgr.fault)
    {
      total, outcomes := 0, [];
      var k := 0;
      while k < |entries|
        invariant 0 <= k <= |entries| && total == k
        invariant Batch(lmgr.db, outcomes) == RestoreAll(old(lmgr.db), entries[..k], recover, lmgr.fault)
      {
        assert entries[..k + 1][..k] == entries[..k];
        ghost var step := RestoreOne(lmgr.db, entries[k], recover, lmgr.fault);
        assert RestoreAll(old(lmgr.db), entries[..k + 1], recover, lmgr.fault)
            == Batch(step.stores, outcomes + [step.outcome]);
        total := total + 1;
        var o := RestoreEntry(entries[k], recover);
        outcomes := outcomes + [o];
        k := k + 1;
      }
      assert entries[..k] == entries;
    }

    /**
     * undo_rm: lists the soft-removed entries under the path filter and
     * restores each one; -1 when the listing cannot be obtained.
     */
    method UndoRm(order: seq<Fid>, available: bool, recover: (Fid, AttrSet) -> Recovery)
      returns (rc: int, total: nat, outcomes: seq<Outcome>)
      requires Enumerates(order, lmgr.db.journal)
      modifies this, lmgr
      ensures pathFilter == Normalized(old(pathFilter))
      ensures !available ==> rc == -1 && total == 0 && outcomes == [] && lmgr.db == old(lmgr.db)
      ensures available ==>
        var list := Listing(old(lmgr.db).journal, PathClauses(old(pathFilter)), order);
        rc == 0 && total == |list|
        && Complete(list, old(lmgr.db).journal, PathClauses(old(pathFilter))) && DistinctIds(list)
        && Batch(lmgr.db, outcomes) == RestoreAll(old(lmgr.db), list, recover, lmgr.fault)
    {
      var filter := new Filter();
      var _, _ := MkPathFilter(filter, None);
      assert [] + PathClauses(old(pathFilter)) == PathClauses(old(pathFilter));
      ghost var listed := Listing(old(lmgr.db).journal, PathClauses(old(pathFilter)), order);
      var list := lmgr.RmList(filter, order, available);
      assert available ==> list == Some(listed);
      if list.None? {
        return -1, 0, [];
      }
      assert list.value == listed;
      total, outcomes := RestoreEntries(list.value, recover);
      rc := 0;
    }
  }

  // ---------------------------------------------------------------------------
  // Properties of a restore

  /** An entry without a known path is skipped whatever recover would do, and nothing changes. */
  lemma SkipChangesNothing(s: Stores, e: RemovedEntry, recover: (Fid, AttrSet) -> Recovery, fault: Faults)
    requires e.row.lastKnownPath == ""
    ensures RestoreOne(s, e, recover, fault) == Step(s, Skipped)
  {
  }

  /** A recover that does not succeed leaves the journal and the catalog as they were. */
  lemma FailedRecoveryChangesNothing(s: Stores, e: RemovedEntry, recover: (Fid, AttrSet) -> Recovery, fault: Faults)
    requires !Recovered(recover(e.id, RestoreAttrs(e)).status)
    ensures RestoreOne(s, e, recover, fault).stores == s
  {
  }

  /**
   * A successful recover: the journal loses the old id when the discard
   * succeeds, and the catalog gets the new row when its write succeeds,
   * whether or not the discard did; the outcome reports both.
   */
  lemma RecoveredEntry(s: Stores, e: RemovedEntry, recover: (Fid, AttrSet) -> Recovery, fault: Faults)
    requires e.row.lastKnownPath != ""
    requires Recovered(recover(e.id, RestoreAttrs(e)).status)
    ensures
      var r := recover(e.id, RestoreAttrs(e));
      var st := RestoreOne(s, e, recover, fault);
      && st.outcome.Restored?
      && (st.outcome.discard == DbSuccess <==> !fault(DiscardOp, e.id) && e.id in s.journal)
      && st.stores.journal == (if st.outcome.discard == DbSuccess then s.journal - {e.id} else s.journal)
      && ((st.outcome.write == DbSuccess)
          == (!fault(InsertOp, r.newId) && (r.newId in s.catalog ==> !fault(UpdateOp, r.newId))))
      && st.stores.catalog == (if st.outcome.write == DbSuccess then s.catalog[r.newId := r.newAttrs] else s.catalog)
  {
  }

  /** With no database fault a recovered entry leaves the journal and the catalog holds exactly its new row. */
  lemma RecoveredEntryNoFault(s: Stores, e: RemovedEntry, recover: (Fid, AttrSet) -> Recovery, fault: Faults)
    requires e.row.lastKnownPath != ""
    requires Recovered(recover(e.id, RestoreAttrs(e)).status)
    requires forall op, id :: !fault(op, id)
    ensures
      var r := recover(e.id, RestoreAttrs(e));
      var st := RestoreOne(s, e, recover, fault);
      && st.stores.journal == s.journal - {e.id}
      && st.stores.catalog == s.catalog[r.newId := r.newAttrs]
      && st.outcome == Restored(if e.id in s.journal then DbSuccess else DbNotExists, DbSuccess)
  {
    RecoveredEntry(s, e, recover, fault);
  }

  /**
   * Restoring the same entry again after a fault-free restore: the journal
   * no longer has the id (the discard reports NotExists and changes
   * nothing), and the catalog row is updated rather than inserted twice:
   * the insert reports AlreadyExists and the update succeeds. recover is a
   * function of the id and the attributes, so the second call returns what
   * the first did.
   */
  lemma RestoreTwice(s: Stores, e: RemovedEntry, recover: (Fid, AttrSet) -> Recovery, fault: Faults)
    requires e.row.lastKnownPath != ""
    requires Recovered(recover(e.id, RestoreAttrs(e)).status)
    requires forall op, id :: !fault(op, id)
    ensures
      var first := RestoreOne(s, e, recover, fault);
      var second := RestoreOne(first.stores, e, recover, fault);
      var r := recover(e.id, RestoreAttrs(e));
      var d := DbDiscard(first.stores, e.id, fault);
      && second.stores == first.stores
      && second.outcome == Restored(DbNotExists, DbSuccess)
      && DbInsert(d.stores, r.newId, r.newAttrs, fault).status == DbAlreadyExists
      && DbUpdate(d.stores, r.newId, r.newAttrs, fault).status == DbSuccess
  {
    var first := RestoreOne(s, e, recover, fault);
    RecoveredEntryNoFault(s, e, recover, fault);
    RecoveredEntryNoFault(first.stores, e, recover, fault);
    var r := recover(e.id, RestoreAttrs(e));
    assert first.stores.catalog[r.newId := r.newAttrs] == first.stores.catalog;
  }

  /** The restore of the entry F1 ("/mnt/fs/file1", backend "bk/1") recovered under the same id. */
  lemma RestoreF1(s: Stores, recover: (Fid, AttrSet) -> Recovery, fault: Faults, a: AttrSet)
    requires forall op, id :: !fault(op, id)
    requires recover(Fid(1, 0, 0), AttrSet(Some("/mnt/fs/file1"), Some("bk/1"))) == Recovery(RsOk, Fid(1, 0, 0), a)
    ensures
      var st := RestoreOne(s, RemovedEntry(Fid(1, 0, 0), Removed("/mnt/fs/file1", "bk/1")), recover, fault);
      && Fid(1, 0, 0) !in st.stores.journal
      && Fid(1, 0, 0) in st.stores.catalog && st.stores.catalog[Fid(1, 0, 0)] == a
      && st.outcome.write == DbSuccess
  {
    var e := RemovedEntry(Fid(1, 0, 0), Removed("/mnt/fs/file1", "bk/1"));
    assert RestoreAttrs(e) == AttrSet(Some("/mnt/fs/file1"), Some("bk/1"));
    RecoveredEntryNoFault(s, e, recover, fault);
  }

  // ---------------------------------------------------------------------------
  // Properties of a batch

  /** Over a batch the journal only loses rows, never changing the others, and the catalog never loses a row. */
  lemma {:induction false} BatchMonotone(s: Stores, es: seq<RemovedEntry>, recover: (Fid, AttrSet) -> Recovery, fault: Faults)
    ensures
      var b := RestoreAll(s, es, recover, fault);
      && b.stores.journal.Keys <= s.journal.Keys
      && (forall id :: id in b.stores.journal ==> b.stores.journal[id] == s.journal[id])
      && s.catalog.Keys <= b.stores.catalog.Keys
  {
    if |es| > 0 {
      BatchMonotone(s, es[..|es| - 1], recover, fault);
    }
  }

  /** A journal row disappears only for a listed entry with a known path whose recover succeeded. */
  lemma {:induction false} BatchDiscardsOnlyRecovered(s: Stores, es: seq<RemovedEntry>, recover: (Fid, AttrSet) -> Recovery,
                                                       fault: Faults, id: Fid)
    requires id in s.journal && id !in RestoreAll(s, es, recover, fault).stores.journal
    ensures exists k :: 0 <= k < |es| && es[k].id == id && es[k].row.lastKnownPath != ""
                        && Recovered(recover(id, RestoreAttrs(es[k])).status)
  {
    var init := es[..|es| - 1];
    var e := es[|es| - 1];
    if id in RestoreAll(s, init, recover, fault).stores.journal {
      assert id == e.id && es[|es| - 1] == e;
    } else {
      BatchDiscardsOnlyRecovered(s, init, recover, fault, id);
      var k :| 0 <= k < |init| && init[k].id == id && init[k].row.lastKnownPath != ""
        && Recovered(recover(id, RestoreAttrs(init[k])).status);
      assert es[k] == init[k];
    }
  }

  /**
   * An entry that is skipped or whose recover fails can be taken out of the
   * batch without changing what happens to the journal and the catalog: one
   * entry's failure never affects the others.
   */
  lemma {:induction false} FailedEntryIndependent(s: Stores, pre: seq<RemovedEntry>, e: RemovedEntry, post: seq<RemovedEntry>,
                                                   recover: (Fid, AttrSet) -> Recovery, fault: Faults)
    requires e.row.lastKnownPath == "" || !Recovered(recover(e.id, RestoreAttrs(e)).status)
    ensures RestoreAll(s, pre + [e] + post, recover, fault).stores == RestoreAll(s, pre + post, recover, fault).stores
    decreases |post|
  {
    if |post| == 0 {
      assert pre + [e] + post == pre + [e];
      assert (pre + [e])[..|pre|] == pre;
      assert pre + post == pre;
    } else {
      var init := post[..|post| - 1];
      var x := post[|post| - 1];
      FailedEntryIndependent(s, pre, e, init, recover, fault);
      assert (pre + [e] + post)[..|pre + [e] + post| - 1] == pre + [e] + init;
      assert (pre + post)[..|pre + post| - 1] == pre + init;
      assert (pre + [e] + post)[|pre + [e] + post| - 1] == x;
      assert (pre + post)[|pre + post| - 1] == x;
    }
  }

  // ---------------------------------------------------------------------------
  // Properties of the listing

  /** Every journal entry the enumeration reaches and the filter accepts is listed. */
  lemma {:induction false} ListingComplete(journal: map<Fid, Removed>, cs: seq<Clause>, order: seq<Fid>, id: Fid)
    requires id in order && id in journal && Accepts(cs, journal[id].lastKnownPath)
    ensures RemovedEntry(id, journal[id]) in Listing(journal, cs, order)
  {
    if order[|order| - 1] != id {
      assert id in order[..|order| - 1] by {
        var k :| 0 <= k < |order| && order[k] == id;
        assert order[..|order| - 1][k] == id;
      }
      ListingComplete(journal, cs, order[..|order| - 1], id);
    }
  }

  /** Listing an enumeration of distinct ids lists each id at most once. */
  lemma {:induction false} ListingDistinct(journal: map<Fid, Removed>, cs: seq<Clause>, order: seq<Fid>)
    requires forall a, b :: 0 <= a < b < |order| ==> order[a] != order[b]
    ensures DistinctIds(Listing(journal, cs, order))
  {
    if |order| > 0 {
      var init := order[..|order| - 1];
      var id := order[|order| - 1];
      ListingDistinct(journal, cs, init);
      assert id !in init;
    }
  }

  /** Over an enumeration of the whole journal the listing holds every accepted row, once. */
  lemma ListingEnumerates(journal: map<Fid, Removed>, cs: seq<Clause>, order: seq<Fid>)
    requires Enumerates(order, journal)
    ensures Complete(Listing(journal, cs, order), journal, cs)
    ensures DistinctIds(Listing(journal, cs, order))
  {
    forall id | id in journal && Accepts(cs, journal[id].lastKnownPath)
      ensures RemovedEntry(id, journal[id]) in Listing(journal, cs, order)
    {
      ListingComplete(journal, cs, order, id);
    }
    ListingDistinct(journal, cs, order);
  }

  /** With no path filter, undo_rm considers every journal entry the enumeration reaches. */
  lemma UnfilteredListingComplete(journal: map<Fid, Removed>, order: seq<Fid>, id: Fid)
    requires id in order && id in journal
    ensures RemovedEntry(id, journal[id]) in Listing(journal, PathClauses(""), order)
  {
    ListingComplete(journal, PathClauses(""), order, id);
  }
}
