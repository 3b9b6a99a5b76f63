/** Audited mutations (control-plane/internal/api/handlers.go, control-plane/internal/store/postgres.go):
    every change and its audit row in one transaction, over all interleavings and faults.

    Assumed of the database, at PostgreSQL's default isolation: a transaction becomes visible all at once
    when it commits and not at all when it rolls back. A statement sees the row as last committed. An
    upsert locks its key, and so does an update or a delete of a row that is there; a statement that needs
    a locked key waits. An update or a delete that finds no committed row locks nothing and waits for
    nobody. Row ids and audit ids never repeat. Each mutation touches one row. */
module Audit {
  import opened Text

  datatype Key = Key(table: string, name: string)

  datatype Row = Row(id: nat, payload: string)

  /** Upsert keeps the id of an existing row; updating a missing row is `ErrNotFound`; deleting a missing
      row is not an error. */
  datatype Op =
    | Upsert(key: Key, payload: string)
    | Update(key: Key, payload: string)
    | Delete(key: Key)

  type Rows = map<Key, Row>

  function Get(rows: Rows, k: Key): Option<Row> { if k in rows then Some(rows[k]) else None }

  function Put(rows: Rows, k: Key, row: Option<Row>): Rows {
    match row case Some(r) => rows[k := r] case None => rows - {k}
  }

  /** What an operation of transaction `t` makes of its row; `None` when it fails for want of one. A new
      row gets the id that the database generates for this transaction. */
  function Effect(op: Op, before: Option<Row>, t: nat): Option<Option<Row>> {
    match op
    case Upsert(_, payload) => Some(Some(Row(if before.Some? then before.value.id else t, payload)))
    case Update(_, payload) => if before.Some? then Some(Some(Row(before.value.id, payload))) else None
    case Delete(_) => Some(None)
  }

  /** The statement has a row to write, and so takes its lock. */
  predicate Writes(op: Op, before: Option<Row>) { op.Upsert? || before.Some? }

  datatype Entry = Entry(actor: string, op: Op, rowId: Option<nat>)

  datatype Ask = Ask(actor: string, op: Op, valid: bool)

  function IdOf(row: Option<Row>): Option<nat> { if row.Some? then Some(row.value.id) else None }

  function EntryFor(ask: Ask, after: Option<Row>): Entry {
    Entry(ask.actor, ask.op, if after.Some? then Some(after.value.id) else None)
  }

  datatype Status = Ok2xx | Invalid400 | NotFound404 | Failed500

  /** `wrote` is false for a delete that found nothing. */
  datatype Tx =
    | Received(ask: Ask)
    | Begun(ask: Ask)
    | Mutated(ask: Ask, after: Option<Row>, wrote: bool)
    | Audited(ask: Ask, after: Option<Row>, wrote: bool, auditId: nat)
    | Ended(status: Status, applied: bool)

  /** One committed transaction. */
  datatype Done = Done(tx: nat, op: Op, wrote: bool, entry: Entry, auditId: nat)

  datatype Db = Db(rows: Rows, log: seq<Entry>, txs: map<nat, Tx>, locks: map<Key, nat>, nextId: nat, done: seq<Done>)

  const EMPTY_DB := Db(map[], [], map[], map[], 1, [])

  /** A commit can fail, or take effect although its confirmation is lost. */
  datatype CommitFate = Confirmed | Rejected | Unconfirmed

  datatype Step =
    | Receive(t: nat, ask: Ask)
    | Begin(t: nat, fault: bool)
    | Mutate(t: nat, fault: bool)
    | Append(t: nat, fault: bool)
    | Commit(t: nat, fate: CommitFate)
    | Abort(t: nat)

  predicate Holding(x: Tx) { (x.Mutated? || x.Audited?) && x.wrote }

  function WithTx(db: Db, t: nat, x: Tx): Db { db.(txs := db.txs[t := x]) }

  function Unlocked(db: Db, x: Tx): map<Key, nat> {
    if Holding(x) then db.locks - {x.ask.op.key} else db.locks
  }

  /** Rolling back releases the row and leaves the store alone. */
  function RolledBack(db: Db, t: nat, status: Status): Db
    requires t in db.txs && !db.txs[t].Ended?
  {
    WithTx(db, t, Ended(status, false)).(locks := Unlocked(db, db.txs[t]))
  }

  function Committed(db: Db, t: nat, status: Status): Db
    requires t in db.txs && db.txs[t].Audited?
  {
    var x := db.txs[t];
    var entry := EntryFor(x.ask, x.after);
    WithTx(db, t, Ended(status, true))
      .(rows := if x.wrote then Put(db.rows, x.ask.op.key, x.after) else db.rows, log := db.log + [entry],
        locks := Unlocked(db, x), done := db.done + [Done(t, x.ask.op, x.wrote, entry, x.auditId)])
  }

  function MutateStep(db: Db, t: nat): Db
    requires t in db.txs && db.txs[t].Begun?
  {
    var ask := db.txs[t].ask;
    var key := ask.op.key;
    var before := Get(db.rows, key);
    var after := Effect(ask.op, before, t);
    if after.None? then RolledBack(db, t, NotFound404)
    else if !Writes(ask.op, before) then WithTx(db, t, Mutated(ask, None, false))
    else if key in db.locks then db
    else WithTx(db, t, Mutated(ask, after.value, true)).(locks := db.locks[key := t])
  }

  function Apply(db: Db, step: Step): Db {
    var t := step.t;
    if step.Receive? then
      if t in db.txs then db
      else WithTx(db, t, if step.ask.valid then Received(step.ask) else Ended(Invalid400, false))
    else if t !in db.txs then db
    else
      var x := db.txs[t];
      match step
      case Begin(_, fault) =>
        if !x.Received? then db else if fault then RolledBack(db, t, Failed500) else WithTx(db, t, Begun(x.ask))
      case Mutate(_, fault) =>
        if !x.Begun? then db else if fault then RolledBack(db, t, Failed500) else MutateStep(db, t)
      case Append(_, fault) =>
        if !x.Mutated? then db
        else if fault then RolledBack(db, t, Failed500)
        else WithTx(db, t, Audited(x.ask, x.after, x.wrote, db.nextId)).(nextId := db.nextId + 1)
      case Commit(_, fate) =>
        if !x.Audited? then db
        else
          (match fate
           case Confirmed => Committed(db, t, Ok2xx)
           case Rejected => RolledBack(db, t, Failed500)
           case Unconfirmed => Committed(db, t, Failed500))
      case Abort(_) => if x.Ended? then db else RolledBack(db, t, Failed500)
      case _ => db
  }

  function Exec(db: Db, steps: seq<Step>): Db {
    if steps == [] then db else Apply(Exec(db, Front(steps)), Last(steps))
  }

  // ---------------------------------------------------------------- what the store should hold

  /** One mutation at a time, in the given order. */
  function Replay(done: seq<Done>): Rows {
    if done == [] then map[]
    else
      var rows, d := Replay(Front(done)), Last(done);
      var after := Effect(d.op, Get(rows, d.op.key), d.tx);
      if after.None? then rows else Put(rows, d.op.key, after.value)
  }

  /** The committed mutations that wrote a row: all but the deletes that found nothing. */
  function Writing(done: seq<Done>): seq<Done> {
    if done == [] then [] else Writing(Front(done)) + if Last(done).wrote then [Last(done)] else []
  }

  function Entries(done: seq<Done>): seq<Entry> {
    if done == [] then [] else Entries(Front(done)) + [Last(done).entry]
  }

  /** Every mutation took effect when it was committed, and its entry names it and its row. */
  predicate Named(done: seq<Done>) {
    done == [] ||
    (var d := Last(done);
     var after := Effect(d.op, Get(Replay(Front(done)), d.op.key), d.tx);
     && Named(Front(done))
     && after.Some? && d.entry.op == d.op
     && d.entry.rowId == if after.value.Some? then Some(after.value.value.id) else None)
  }

  /** What wrote nothing is a delete, and its entry says so. */
  predicate OnlyDeletesMiss(done: seq<Done>) {
    forall i :: 0 <= i < |done| && !done[i].wrote ==>
      done[i].op.Delete? && done[i].entry.op == done[i].op && done[i].entry.rowId.None?
  }

  function Times(done: seq<Done>, t: nat): nat {
    if done == [] then 0 else Times(Front(done), t) + if Last(done).tx == t then 1 else 0
  }

  /** A transaction that holds its row has the right new row for it; one that wrote nothing is a delete. */
  ghost predicate TxOk(db: Db, t: nat) {
    t in db.txs && (db.txs[t].Mutated? || db.txs[t].Audited?) ==>
      var x := db.txs[t];
      var key := x.ask.op.key;
      if x.wrote then key in db.locks && db.locks[key] == t && Effect(x.ask.op, Get(db.rows, key), t) == Some(x.after)
      else x.ask.op.Delete? && x.after.None?
  }

  ghost predicate Inv(db: Db) {
    && (forall t :: TxOk(db, t))
    && db.rows == Replay(Writing(db.done)) && Named(Writing(db.done)) && OnlyDeletesMiss(db.done)
    && db.log == Entries(db.done)
    && (forall t :: Times(db.done, t) == if t in db.txs && db.txs[t].Ended? && db.txs[t].applied then 1 else 0)
    && (forall t :: t in db.txs && db.txs[t].Ended? ==>
          (db.txs[t].status == Ok2xx ==> db.txs[t].applied)
          && (db.txs[t].status == Invalid400 || db.txs[t].status == NotFound404 ==> !db.txs[t].applied))
  }

  lemma {:induction false} TimesGrows(done: seq<Done>, d: Done, t: nat)
    ensures Times(done + [d], t) == Times(done, t) + if d.tx == t then 1 else 0
  {
    assert Front(done + [d]) == done;
  }

  lemma HistoryGrows(done: seq<Done>, d: Done)
    ensures Writing(done + [d]) == if d.wrote then Writing(done) + [d] else Writing(done)
    ensures Entries(done + [d]) == Entries(done) + [d.entry]
  {
    assert Front(done + [d]) == done;
  }

  lemma ReplayGrows(done: seq<Done>, d: Done)
    requires Named(done)
    requires Effect(d.op, Get(Replay(done), d.op.key), d.tx).Some?
    ensures var after := Effect(d.op, Get(Replay(done), d.op.key), d.tx).value;
            && Replay(done + [d]) == Put(Replay(done), d.op.key, after)
            && (Named(done + [d]) <==>
                  d.entry.op == d.op && d.entry.rowId == if after.Some? then Some(after.value.id) else None)
  {
    assert Front(done + [d]) == done;
  }

  lemma CommittedKeepsTxs(db: Db, t: nat, status: Status, u: nat)
    requires TxOk(db, t) && TxOk(db, u) && t in db.txs && db.txs[t].Audited?
    ensures TxOk(Committed(db, t, status), u)
  {
  }

  lemma CommittedKeepsInv(db: Db, t: nat, status: Status)
    requires Inv(db) && t in db.txs && db.txs[t].Audited? && (status == Ok2xx || status == Failed500)
    ensures Inv(Committed(db, t, status))
  {
    var x := db.txs[t];
    var db' := Committed(db, t, status);
    var d := Last(db'.done);
    assert TxOk(db, t);
    assert db'.done == db.done + [d];
    HistoryGrows(db.done, d);
    if x.wrote { ReplayGrows(Writing(db.done), d); }
    forall u ensures TxOk(db', u) { CommittedKeepsTxs(db, t, status, u); }
    forall u ensures Times(db'.done, u) == Times(db.done, u) + if u == t then 1 else 0 {
      TimesGrows(db.done, d, u);
    }
  }

  lemma RolledBackKeepsInv(db: Db, t: nat, status: Status)
    requires Inv(db) && t in db.txs && !db.txs[t].Ended? && status != Ok2xx
    ensures Inv(RolledBack(db, t, status))
  {
    var db' := RolledBack(db, t, status);
    forall u ensures TxOk(db', u) {
      assert TxOk(db, u) && TxOk(db, t);
    }
  }

  /** A transaction moving on, before its end, keeps the invariant if its own part of it holds. */
  lemma MoveKeepsInv(db: Db, t: nat, x: Tx, locks: map<Key, nat>, nextId: nat)
    requires Inv(db) && (t in db.txs ==> !db.txs[t].Ended?)
    requires !x.Ended? || x == Ended(Invalid400, false)
    requires forall k :: k in db.locks ==> k in locks && locks[k] == db.locks[k]
    requires TxOk(db.(txs := db.txs[t := x], locks := locks, nextId := nextId), t)
    ensures Inv(db.(txs := db.txs[t := x], locks := locks, nextId := nextId))
  {
    var db' := db.(txs := db.txs[t := x], locks := locks, nextId := nextId);
    forall u ensures TxOk(db', u) { assert TxOk(db, u); }
  }

  lemma MutateKeepsInv(db: Db, t: nat)
    requires Inv(db) && t in db.txs && db.txs[t].Begun?
    ensures Inv(MutateStep(db, t))
  {
    var ask := db.txs[t].ask;
    var key, before := ask.op.key, Get(db.rows, ask.op.key);
    var after := Effect(ask.op, before, t);
    if after.None? {
      RolledBackKeepsInv(db, t, NotFound404);
    } else if !Writes(ask.op, before) {
      MoveKeepsInv(db, t, Mutated(ask, None, false), db.locks, db.nextId);
    } else if key !in db.locks {
      MoveKeepsInv(db, t, Mutated(ask, after.value, true), db.locks[key := t], db.nextId);
    }
  }

  lemma StepKeepsInv(db: Db, step: Step)
    requires Inv(db)
    ensures Inv(Apply(db, step))
  {
    var t := step.t;
    if t in db.txs && !db.txs[t].Ended? {
      var x := db.txs[t];
      match step
      case Begin(_, fault) =>
        if fault { RolledBackKeepsInv(db, t, Failed500); }
        else { MoveKeepsInv(db, t, Begun(x.ask), db.locks, db.nextId); }
      case Mutate(_, fault) =>
        if fault { RolledBackKeepsInv(db, t, Failed500); }
        else if x.Begun? { MutateKeepsInv(db, t); }
      case Append(_, fault) =>
        if fault { RolledBackKeepsInv(db, t, Failed500); }
        else if x.Mutated? {
          assert TxOk(db, t);
          MoveKeepsInv(db, t, Audited(x.ask, x.after, x.wrote, db.nextId), db.locks, db.nextId + 1);
        }
      case Commit(_, fate) =>
        if fate.Rejected? { RolledBackKeepsInv(db, t, Failed500); }
        else if x.Audited? { CommittedKeepsInv(db, t, if fate.Confirmed? then Ok2xx else Failed500); }
      case Abort(_) => RolledBackKeepsInv(db, t, Failed500);
      case Receive(_, _) =>
    } else if t !in db.txs && step.Receive? {
      var x := if step.ask.valid then Received(step.ask) else Ended(Invalid400, false);
      MoveKeepsInv(db, t, x, db.locks, db.nextId);
    }
  }

  lemma {:induction false} RunKeepsInv(steps: seq<Step>)
    ensures Inv(Exec(EMPTY_DB, steps))
  {
    if steps != [] {
      RunKeepsInv(Front(steps));
      StepKeepsInv(Exec(EMPTY_DB, Front(steps)), Last(steps));
    }
  }

  /** In every run, whatever is interleaved and whatever fails: the store is the committed mutations that
      wrote a row, applied one after another in commit order, none of them in vain; whatever wrote nothing
      is a delete; the audit log is the entries of all of them in commit order, each naming its operation
      and the id of its row; a confirmed request contributes exactly one entry and a rejected one none. */
  lemma MutationsAreAudited(steps: seq<Step>, t: nat)
    ensures var db := Exec(EMPTY_DB, steps);
            && db.rows == Replay(Writing(db.done)) && Named(Writing(db.done)) && OnlyDeletesMiss(db.done)
            && db.log == Entries(db.done)
            && Times(db.done, t) <= 1
            && (t in db.txs && db.txs[t].Ended? ==>
                  && (db.txs[t].status == Ok2xx ==> Times(db.done, t) == 1)
                  && (db.txs[t].status == Invalid400 || db.txs[t].status == NotFound404 ==> Times(db.done, t) == 0))
            && (t !in db.txs || !db.txs[t].Ended? ==> Times(db.done, t) == 0)
  {
    RunKeepsInv(steps);
  }

  /** The history and the audit log only grow. */
  lemma {:induction false} AuditIsAppendOnly(db: Db, steps: seq<Step>)
    ensures db.log <= Exec(db, steps).log && db.done <= Exec(db, steps).done
  {
    if steps != [] {
      AuditIsAppendOnly(db, Front(steps));
      var before := Exec(db, Front(steps));
      assert before.log <= Apply(before, Last(steps)).log && before.done <= Apply(before, Last(steps)).done;
    }
  }

  // ---------------------------------------------------------------- the handler

  /** What goes wrong for one request, if anything. */
  datatype Luck = Luck(begin: bool, mutate: bool, append: bool, commit: CommitFate)

  /** What a valid request that met this luck leaves behind. `blocked` means that another transaction
      holds its row and does not let go before the request gives up. */
  predicate Outcome(
    rows: Rows, log: seq<Entry>, t: nat, ask: Ask, blocked: bool, luck: Luck,
    rows': Rows, log': seq<Entry>, status: Status)
  {
    var before := Get(rows, ask.op.key);
    var after := Effect(ask.op, before, t);
    var waits := blocked && Writes(ask.op, before);
    var applied := !luck.begin && !luck.mutate && after.Some? && !waits && !luck.append && !luck.commit.Rejected?;
    && rows' == (if applied then Put(rows, ask.op.key, after.value) else rows)
    && log' == (if applied then log + [Entry(ask.actor, ask.op, IdOf(after.value))] else log)
    && (status == Ok2xx <==> applied && luck.commit.Confirmed?)
    && (status == NotFound404 <==> !luck.begin && !luck.mutate && after.None?)
  }

  class Server {
    var db: Db

    constructor ()
      ensures db == EMPTY_DB
    {
      db := EMPTY_DB;
    }

    /** A mutating handler with nobody in between: validate, then change the row and append the entry in
        one transaction. The row and the log change together or not at all, and only a commit whose
        confirmation was lost changes them without a 2xx. */
    method Handle(t: nat, ask: Ask, luck: Luck) returns (status: Status, ghost run: seq<Step>)
      requires t !in db.txs
      modifies this
      ensures db == Exec(old(db), run)
      ensures t in db.txs && db.txs[t].Ended? && db.txs[t].status == status
      ensures status == Invalid400 <==> !ask.valid
      ensures !ask.valid ==> db.rows == old(db.rows) && db.log == old(db.log)
      ensures ask.valid ==>
                Outcome(old(db.rows), old(db.log), t, ask, ask.op.key in old(db.locks), luck, db.rows, db.log, status)
    {
      run := Do(Receive(t, ask), [], db);
      if !ask.valid { return Invalid400, run; }
      status, run := MutateWithAudit(t, luck, run, old(db));
    }

    /** One transaction: begin, change the row, append the entry, commit. A row that another transaction
        holds is waited for until the request's context ends. */
    method MutateWithAudit(t: nat, luck: Luck, ghost run: seq<Step>, ghost start: Db)
      returns (status: Status, ghost run': seq<Step>)
      requires t in db.txs && db.txs[t].Received?
      requires db == Exec(start, run)
      modifies this
      ensures db == Exec(start, run')
      ensures t in db.txs && db.txs[t].Ended? && db.txs[t].status == status != Invalid400
      ensures Outcome(old(db.rows), old(db.log), t, old(db.txs[t].ask), old(db.txs[t].ask.op.key in db.locks), luck,
                      db.rows, db.log, status)
    {
      run' := Do(Begin(t, luck.begin), run, start);
      if luck.begin { return Failed500, run'; }
      run' := Do(Mutate(t, luck.mutate), run', start);
      if luck.mutate { return Failed500, run'; }
      if db.txs[t].Ended? { return NotFound404, run'; }
      if db.txs[t].Begun? {
        run' := Do(Abort(t), run', start);
        return Failed500, run';
      }
      status, run' := AppendAndCommit(t, luck, run', start);
    }

    method AppendAndCommit(t: nat, luck: Luck, ghost run: seq<Step>, ghost start: Db)
      returns (status: Status, ghost run': seq<Step>)
      requires t in db.txs && db.txs[t].Mutated?
      requires db == Exec(start, run)
      modifies this
      ensures db == Exec(start, run')
      ensures t in db.txs && db.txs[t].Ended? && db.txs[t].status == status
      ensures var x := old(db.txs[t]);
              var applied := !luck.append && !luck.commit.Rejected?;
              && db.rows == (if applied && x.wrote then Put(old(db.rows), x.ask.op.key, x.after) else old(db.rows))
              && db.log == old(db.log) + (if applied then [Entry(x.ask.actor, x.ask.op, IdOf(x.after))] else [])
              && status == if applied && luck.commit.Confirmed? then Ok2xx else Failed500
    {
      run' := Do(Append(t, luck.append), run, start);
      if luck.append { return Failed500, run'; }
      run' := Do(Commit(t, luck.commit), run', start);
      status := if luck.commit.Confirmed? then Ok2xx else Failed500;
    }

    method Do(step: Step, ghost run: seq<Step>, ghost start: Db) returns (ghost run': seq<Step>)
      requires db == Exec(start, run)
      modifies this
      ensures db == Apply(old(db), step) && db == Exec(start, run')
    {
      db := Apply(db, step);
      run' := run + [step];
      assert Front(run') == run;
    }
  }
}
