/** What the audit history says about the store and about its own ids, over every run of `Audit`. */
module History {
  import opened Text
  import opened Audit

  // ---------------------------------------------------------------- rows

  function LastOp(done: seq<Done>, k: Key): Option<Op> {
    if done == [] then None else if Last(done).op.key == k then Some(Last(done).op) else LastOp(Front(done), k)
  }

  lemma {:induction false} ReplayEndsInLastOp(done: seq<Done>, k: Key)
    requires Named(done)
    ensures k in Replay(done) <==> LastOp(done, k).Some? && !LastOp(done, k).value.Delete?
    ensures k in Replay(done) ==> Replay(done)[k].payload == LastOp(done, k).value.payload
  {
    if done != [] { ReplayEndsInLastOp(Front(done), k); }
  }

  /** In every run the last committed operation that wrote a key decides: the row is there unless that was
      a delete, and holds what it wrote. */
  lemma LastWriteWins(steps: seq<Step>, k: Key)
    ensures var db := Exec(EMPTY_DB, steps);
            var last := LastOp(Writing(db.done), k);
            && (k in db.rows <==> last.Some? && !last.value.Delete?)
            && (k in db.rows ==> db.rows[k].payload == last.value.payload)
  {
    RunKeepsInv(steps);
    ReplayEndsInLastOp(Writing(Exec(EMPTY_DB, steps).done), k);
  }

  lemma {:induction false} ReplayKeepsId(done: seq<Done>, more: seq<Done>, k: Key)
    requires k in Replay(done)
    requires forall i :: 0 <= i < |more| ==> more[i].op != Delete(k)
    ensures k in Replay(done + more) && Replay(done + more)[k].id == Replay(done)[k].id
  {
    if more == [] {
      assert done + more == done;
    } else {
      assert Front(done + more) == done + Front(more) && Last(done + more) == Last(more);
      ReplayKeepsId(done, Front(more), k);
    }
  }

  lemma {:induction false} WritingConcat(a: seq<Done>, b: seq<Done>)
    ensures Writing(a + b) == Writing(a) + Writing(b)
    ensures forall d :: d in Writing(b) ==> d in b && d.wrote
  {
    if b == [] {
      assert a + b == a;
    } else {
      assert Front(a + b) == a + Front(b) && Last(a + b) == Last(b);
      assert b == Front(b) + [Last(b)];
      WritingConcat(a, Front(b));
    }
  }

  lemma {:induction false} ExecConcat(a: seq<Step>, b: seq<Step>)
    ensures Exec(EMPTY_DB, a + b) == Exec(Exec(EMPTY_DB, a), b)
  {
    if b == [] {
      assert a + b == a;
    } else {
      assert Front(a + b) == a + Front(b) && Last(a + b) == Last(b);
      ExecConcat(a, Front(b));
    }
  }

  /** A row keeps its id from any state of any run on, until a delete that found it is committed; so audit
      entries that name it keep naming the same row. */
  lemma RowIdIsStable(steps: seq<Step>, more: seq<Step>, k: Key)
    requires k in Exec(EMPTY_DB, steps).rows
    requires var n := |Exec(EMPTY_DB, steps).done|;
             var done := Exec(EMPTY_DB, steps + more).done;
             forall i :: n <= i < |done| && done[i].op == Delete(k) ==> !done[i].wrote
    ensures k in Exec(EMPTY_DB, steps + more).rows
    ensures Exec(EMPTY_DB, steps + more).rows[k].id == Exec(EMPTY_DB, steps).rows[k].id
  {
    var db, db' := Exec(EMPTY_DB, steps), Exec(EMPTY_DB, steps + more);
    ExecConcat(steps, more);
    AuditIsAppendOnly(db, more);
    var rest := db'.done[|db.done|..];
    assert db'.done == db.done + rest;
    WritingConcat(db.done, rest);
    RunKeepsInv(steps);
    RunKeepsInv(steps + more);
    forall i | 0 <= i < |Writing(rest)| ensures Writing(rest)[i].op != Delete(k) {
      assert Writing(rest)[i] in rest;
    }
    ReplayKeepsId(Writing(db.done), Writing(rest), k);
  }

  // ---------------------------------------------------------------- whose entries

  /** The request that a run accepted as `t`: the first one received under that number. */
  function Accepted(steps: seq<Step>, t: nat): Option<Ask> {
    if steps == [] then None
    else
      var before := Accepted(Front(steps), t);
      if before.Some? then before
      else if Last(steps).Receive? && Last(steps).t == t then Some(Last(steps).ask)
      else None
  }

  /** The transactions are those of the accepted requests, and the history is signed by them. */
  ghost predicate Signed(steps: seq<Step>, db: Db) {
    && (forall t :: t in db.txs <==> Accepted(steps, t).Some?)
    && (forall t :: t in db.txs && !db.txs[t].Ended? ==>
          Accepted(steps, t) == Some(db.txs[t].ask) && db.txs[t].ask.valid)
    && (forall i :: 0 <= i < |db.done| ==> SignedBy(db.done[i], Accepted(steps, db.done[i].tx)))
  }

  predicate SignedBy(d: Done, ask: Option<Ask>) {
    && ask.Some? && ask.value.valid && d.op == ask.value.op
    && d.entry.actor == ask.value.actor && d.entry.op == ask.value.op
  }

  lemma StepKeepsAsks(db: Db, step: Step, t: nat)
    ensures t in db.txs ==> t in Apply(db, step).txs
    ensures t in Apply(db, step).txs && t !in db.txs ==>
              && step.Receive? && step.t == t
              && Apply(db, step).txs[t] == if step.ask.valid then Received(step.ask) else Ended(Invalid400, false)
    ensures t in db.txs && !Apply(db, step).txs[t].Ended? ==>
              !db.txs[t].Ended? && Apply(db, step).txs[t].ask == db.txs[t].ask
    ensures step.Receive? && step.t == t ==> t in Apply(db, step).txs
  {
  }

  lemma StepSigns(db: Db, step: Step, i: nat)
    requires i < |Apply(db, step).done|
    ensures var d := Apply(db, step).done[i];
            if i < |db.done| then d == db.done[i]
            else
              && d.tx in db.txs && !db.txs[d.tx].Ended?
              && (db.txs[d.tx].ask.valid ==> SignedBy(d, Some(db.txs[d.tx].ask)))
  {
  }

  lemma {:induction false} RunIsSigned(steps: seq<Step>)
    ensures Signed(steps, Exec(EMPTY_DB, steps))
  {
    if steps != [] {
      var db, step := Exec(EMPTY_DB, Front(steps)), Last(steps);
      RunIsSigned(Front(steps));
      forall t { StepKeepsAsks(db, step, t); }
      forall i | 0 <= i < |Apply(db, step).done|
        ensures SignedBy(Apply(db, step).done[i], Accepted(steps, Apply(db, step).done[i].tx))
      {
        StepSigns(db, step, i);
      }
    }
  }

  lemma {:induction false} EntriesAt(done: seq<Done>, i: nat)
    requires i < |done|
    ensures |Entries(done)| == |done| && Entries(done)[i] == done[i].entry
  {
    if i < |done| - 1 { EntriesAt(Front(done), i); } else if |done| > 1 { EntriesAt(Front(done), 0); }
  }

  lemma {:induction false} NamedFront(a: seq<Done>, b: seq<Done>)
    requires Named(a + b)
    ensures Named(a)
  {
    if b == [] {
      assert a + b == a;
    } else {
      assert Front(a + b) == a + Front(b);
      NamedFront(a, Front(b));
    }
  }

  /** The id of the row that commit `i` wrote, if it left one. */
  function WrittenId(done: seq<Done>, i: nat): Option<nat>
    requires i < |done|
  {
    var rows := Replay(Writing(done[..i + 1]));
    if done[i].wrote && done[i].op.key in rows then Some(rows[done[i].op.key].id) else None
  }

  lemma {:induction false} EntryNamesItsRow(done: seq<Done>, i: nat)
    requires i < |done| && Named(Writing(done)) && OnlyDeletesMiss(done)
    ensures done[i].entry.rowId == WrittenId(done, i)
  {
    var before, d := Front(done), Last(done);
    assert done == before + [d];
    if i == |done| - 1 {
      assert done[..i + 1] == done;
      if d.wrote { LastWriteIsNamed(before, d); }
    } else {
      HistoryGrows(before, d);
      if d.wrote { NamedFront(Writing(before), [d]); }
      assert before[i] == done[i] && before[..i + 1] == done[..i + 1];
      EntryNamesItsRow(before, i);
    }
  }

  lemma LastWriteIsNamed(done: seq<Done>, d: Done)
    requires d.wrote && Named(Writing(done + [d]))
    ensures var rows := Replay(Writing(done + [d]));
            d.entry.rowId == if d.op.key in rows then Some(rows[d.op.key].id) else None
  {
    HistoryGrows(done, d);
    LastNamesItsRow(Writing(done), d);
  }

  lemma LastNamesItsRow(done: seq<Done>, d: Done)
    requires Named(done + [d])
    ensures var rows := Replay(done + [d]);
            d.entry.rowId == if d.op.key in rows then Some(rows[d.op.key].id) else None
  {
    assert Front(done + [d]) == done && Last(done + [d]) == d;
  }

  /** In every run, entry `i` of the log is of one accepted, valid request: it carries that request's actor
      and operation and the id of the row that the request wrote, if it left one. */
  lemma EntriesAreSigned(steps: seq<Step>, i: nat)
    requires i < |Exec(EMPTY_DB, steps).log|
    ensures var db := Exec(EMPTY_DB, steps);
            && i < |db.done| == |db.log|
            && var ask := Accepted(steps, db.done[i].tx);
               && ask.Some? && ask.value.valid
               && db.log[i].actor == ask.value.actor && db.log[i].op == ask.value.op == db.done[i].op
               && db.log[i].rowId == WrittenId(db.done, i)
  {
    var db := Exec(EMPTY_DB, steps);
    RunKeepsInv(steps);
    RunIsSigned(steps);
    if db.done != [] { EntriesAt(db.done, 0); }
    EntriesAt(db.done, i);
    assert SignedBy(db.done[i], Accepted(steps, db.done[i].tx));
    EntryNamesItsRow(db.done, i);
  }

  // ---------------------------------------------------------------- deletes that overtake an insert

  /** Commit `j` is of a delete of `k` that had found nothing, although the row was there by then, and the
      row has not been deleted since. */
  ghost predicate OvertakenAt(done: seq<Done>, j: nat, k: Key) {
    && j < |done| && done[j].op.key == k && !done[j].wrote && k in Replay(Writing(done[..j]))
    && forall i :: j < i < |done| && done[i].op == Delete(k) ==> !done[i].wrote
  }

  ghost predicate Overtaken(done: seq<Done>, k: Key) { exists j: nat :: OvertakenAt(done, j, k) }

  lemma OvertakenGrows(done: seq<Done>, d: Done, k: Key)
    requires d.wrote || d.op.Delete?
    ensures Overtaken(done + [d], k)
       <==> || (d.op.key == k && !d.wrote && k in Replay(Writing(done)))
            || (Overtaken(done, k) && !(d.op == Delete(k) && d.wrote))
  {
    var done' := done + [d];
    assert done'[..|done|] == done && done'[|done|] == d;
    if d.op.key == k && !d.wrote && k in Replay(Writing(done)) { assert OvertakenAt(done', |done|, k); }
    if Overtaken(done, k) && !(d.op == Delete(k) && d.wrote) {
      var j: nat :| OvertakenAt(done, j, k);
      assert done'[..j] == done[..j];
      assert OvertakenAt(done', j, k);
    }
    if Overtaken(done', k) {
      var j: nat :| OvertakenAt(done', j, k);
      assert done'[..j] == if j < |done| then done[..j] else done;
      if j < |done| {
        assert forall i :: j < i < |done| ==> done'[i] == done[i];
        assert OvertakenAt(done, j, k);
      }
    }
  }

  predicate InTxs(done: seq<Done>, t: nat) { exists i :: 0 <= i < |done| && done[i].tx == t }

  predicate TxsDiffer(done: seq<Done>) { forall i, j :: 0 <= i < j < |done| ==> done[i].tx != done[j].tx }

  lemma {:induction false} TimesCounts(done: seq<Done>, t: nat)
    ensures Times(done, t) == 0 <==> !InTxs(done, t)
  {
    if done != [] {
      TimesCounts(Front(done), t);
      assert done[|done| - 1] == Last(done);
      if InTxs(Front(done), t) {
        var i :| 0 <= i < |Front(done)| && Front(done)[i].tx == t;
        assert done[i].tx == t;
      }
      if InTxs(done, t) && Last(done).tx != t {
        var i :| 0 <= i < |done| && done[i].tx == t;
        assert Front(done)[i].tx == t;
      }
    }
  }

  lemma {:induction false} OnceEachDiffers(done: seq<Done>)
    requires forall t :: Times(done, t) <= 1
    ensures TxsDiffer(done)
  {
    if done != [] {
      forall t ensures Times(Front(done), t) <= 1 { assert Times(done, t) <= 1; }
      OnceEachDiffers(Front(done));
      assert Times(done, Last(done).tx) <= 1;
      TimesCounts(Front(done), Last(done).tx);
      forall i | 0 <= i < |done| - 1 ensures done[i].tx != Last(done).tx { assert Front(done)[i] == done[i]; }
    }
  }

  /** Ids come from committed transactions. */
  lemma {:induction false} IdIsATx(done: seq<Done>, k: Key)
    requires k in Replay(Writing(done))
    ensures InTxs(done, Replay(Writing(done))[k].id)
  {
    var before, d := Front(done), Last(done);
    assert done == before + [d];
    HistoryGrows(before, d);
    if d.wrote { assert Front(Writing(before) + [d]) == Writing(before); }
    if k in Replay(Writing(before)) && Replay(Writing(done))[k].id == Replay(Writing(before))[k].id {
      IdIsATx(before, k);
      var i :| 0 <= i < |before| && before[i].tx == Replay(Writing(before))[k].id;
      assert done[i] == before[i];
    } else {
      assert done[|done| - 1].tx == Replay(Writing(done))[k].id;
    }
  }

  lemma NewTxIsNewId(done: seq<Done>, d: Done, k: Key)
    requires TxsDiffer(done + [d]) && k in Replay(Writing(done))
    ensures d.tx != Replay(Writing(done))[k].id
  {
    IdIsATx(done, k);
    var i :| 0 <= i < |done| && done[i].tx == Replay(Writing(done))[k].id;
    assert (done + [d])[i] == done[i] && (done + [d])[|done|] == d;
  }

  /** What replaying every committed mutation makes of a key, against what was stored. */
  ghost predicate Agrees(done: seq<Done>, k: Key) {
    var stored, replayed := Get(Replay(Writing(done)), k), Get(Replay(done), k);
    if Overtaken(done, k) then stored.Some? && (replayed.Some? ==> replayed.value.id != stored.value.id)
    else stored == replayed
  }

  lemma HistoryShrinks(done: seq<Done>, d: Done)
    requires Named(Writing(done + [d])) && OnlyDeletesMiss(done + [d]) && TxsDiffer(done + [d])
    ensures Named(Writing(done)) && OnlyDeletesMiss(done) && TxsDiffer(done)
    ensures d.wrote || d.op.Delete?
    ensures d.wrote ==> Effect(d.op, Get(Replay(Writing(done)), d.op.key), d.tx).Some?
  {
    var all := done + [d];
    assert all[|done|] == d && forall i :: 0 <= i < |done| ==> all[i] == done[i];
    HistoryGrows(done, d);
    if d.wrote { assert Front(Writing(done) + [d]) == Writing(done); }
  }

  lemma {:induction false} OvertakenExactly(done: seq<Done>, k: Key)
    requires Named(Writing(done)) && OnlyDeletesMiss(done) && TxsDiffer(done)
    ensures Agrees(done, k)
  {
    if done == [] {
      assert !Overtaken(done, k);
    } else {
      var before, d := Front(done), Last(done);
      assert done == before + [d];
      HistoryShrinks(before, d);
      OvertakenExactly(before, k);
      if k in Replay(Writing(before)) { NewTxIsNewId(before, d, k); }
      OvertakenGrows(before, d, k);
      AgreesGrows(before, d, k);
    }
  }

  lemma AgreesGrows(done: seq<Done>, d: Done, k: Key)
    requires Agrees(done, k) && (d.wrote || d.op.Delete?)
    requires k in Replay(Writing(done)) ==> d.tx != Replay(Writing(done))[k].id
    requires d.wrote ==> Effect(d.op, Get(Replay(Writing(done)), d.op.key), d.tx).Some?
    requires Overtaken(done + [d], k)
        <==> || (d.op.key == k && !d.wrote && k in Replay(Writing(done)))
             || (Overtaken(done, k) && !(d.op == Delete(k) && d.wrote))
    ensures Agrees(done + [d], k)
  {
    HistoryGrows(done, d);
    GetGrows(done, d, k);
    if d.wrote { GetGrows(Writing(done), d, k); }
  }

  lemma GetGrows(done: seq<Done>, d: Done, k: Key)
    ensures var before := Get(Replay(done), k);
            var after := Effect(d.op, before, d.tx);
            Get(Replay(done + [d]), k) == if d.op.key == k && after.Some? then after.value else before
  {
    assert Front(done + [d]) == done;
  }

  /** In every run: the store is all committed mutations in commit order, the deletes that found nothing
      included, exactly when no row stands that such a delete has overtaken. */
  lemma RowsAreReplayExactly(steps: seq<Step>)
    ensures var db := Exec(EMPTY_DB, steps);
            db.rows == Replay(db.done) <==> forall k :: !Overtaken(db.done, k)
  {
    var db := Exec(EMPTY_DB, steps);
    RunKeepsInv(steps);
    OnceEachDiffers(db.done);
    forall k ensures Agrees(db.done, k) { OvertakenExactly(db.done, k); }
    if k :| Overtaken(db.done, k) {
      assert Agrees(db.done, k);
      DifferentRows(db.rows, Replay(db.done), k);
    } else {
      forall k ensures Get(db.rows, k) == Get(Replay(db.done), k) { assert Agrees(db.done, k); }
      SameRows(db.rows, Replay(db.done));
    }
  }

  lemma DifferentRows(a: Rows, b: Rows, k: Key)
    requires Get(a, k) != Get(b, k)
    ensures a != b
  {
  }

  lemma SameRows(a: Rows, b: Rows)
    requires forall k :: Get(a, k) == Get(b, k)
    ensures a == b
  {
    forall k ensures k in a <==> k in b { assert Get(a, k) == Get(b, k); }
    forall k | k in a ensures a[k] == b[k] { assert Get(a, k) == Get(b, k); }
  }

  lemma OneMore(steps: seq<Step>, db: Db, step: Step)
    requires db == Exec(EMPTY_DB, steps)
    ensures Exec(EMPTY_DB, steps + [step]) == Apply(db, step)
  {
    assert Front(steps + [step]) == steps;
  }

  /** Four steps of one transaction whose key no other holds. */
  lemma UpToAudited(steps: seq<Step>, db: Db, t: nat, ask: Ask, after: Option<Row>, wrote: bool)
    returns (more: seq<Step>, db': Db)
    requires db == Exec(EMPTY_DB, steps) && t !in db.txs && ask.valid
    requires Effect(ask.op, Get(db.rows, ask.op.key), t) == Some(after)
    requires wrote == Writes(ask.op, Get(db.rows, ask.op.key)) && (wrote ==> ask.op.key !in db.locks)
    ensures db' == Exec(EMPTY_DB, more)
    ensures db' == db.(txs := db.txs[t := Audited(ask, after, wrote, db.nextId)], nextId := db.nextId + 1,
                       locks := if wrote then db.locks[ask.op.key := t] else db.locks)
  {
    var begun := UpToBegun(steps, db, t, ask);
    var db2, c, d := WithTx(db, t, Begun(ask)), Mutate(t, false), Append(t, false);
    OneMore(begun, db2, c);
    MutateIs(db2, t, ask, after, wrote);
    var db3 := Apply(db2, c);
    assert db3.txs[t] == Mutated(ask, after, wrote);
    OneMore(begun + [c], db3, d);
    AppendIs(db3, t);
    more, db' := begun + [c] + [d], Apply(db3, d);
    assert db3.txs[t := db'.txs[t]] == db.txs[t := db'.txs[t]];
  }

  lemma UpToBegun(steps: seq<Step>, db: Db, t: nat, ask: Ask) returns (more: seq<Step>)
    requires db == Exec(EMPTY_DB, steps) && t !in db.txs && ask.valid
    ensures Exec(EMPTY_DB, more) == WithTx(db, t, Begun(ask))
  {
    var a, b := Receive(t, ask), Begin(t, false);
    OneMore(steps, db, a);
    var db1 := WithTx(db, t, Received(ask));
    OneMore(steps + [a], db1, b);
    more := steps + [a] + [b];
    assert Apply(db1, b) == WithTx(db, t, Begun(ask));
  }

  lemma MutateIs(db: Db, t: nat, ask: Ask, after: Option<Row>, wrote: bool)
    requires t in db.txs && db.txs[t] == Begun(ask)
    requires Effect(ask.op, Get(db.rows, ask.op.key), t) == Some(after)
    requires wrote == Writes(ask.op, Get(db.rows, ask.op.key)) && (wrote ==> ask.op.key !in db.locks)
    ensures Apply(db, Mutate(t, false))
         == db.(txs := db.txs[t := Mutated(ask, after, wrote)],
                locks := if wrote then db.locks[ask.op.key := t] else db.locks)
  {
  }

  lemma AppendIs(db: Db, t: nat)
    requires t in db.txs && db.txs[t].Mutated?
    ensures Apply(db, Append(t, false))
         == db.(txs := db.txs[t := Audited(db.txs[t].ask, db.txs[t].after, db.txs[t].wrote, db.nextId)],
                nextId := db.nextId + 1)
  {
  }

  lemma ThenCommit(steps: seq<Step>, db: Db, t: nat) returns (more: seq<Step>, db': Db)
    requires db == Exec(EMPTY_DB, steps) && t in db.txs && db.txs[t].Audited?
    ensures db' == Exec(EMPTY_DB, more) && db' == Committed(db, t, Ok2xx)
  {
    OneMore(steps, db, Commit(t, Confirmed));
    more, db' := steps + [Commit(t, Confirmed)], Apply(db, Commit(t, Confirmed));
  }

  /** Such a run: a delete looks for the row before the upsert that inserts it is committed, and commits
      after it. Both are answered 2xx, their ids ascend, the last entry is the delete, and the row is
      there. */
  lemma DeleteCanBeOvertaken(k: Key) returns (steps: seq<Step>, db: Db)
    ensures db == Exec(EMPTY_DB, steps)
    ensures 1 in db.txs && 2 in db.txs && db.txs[1] == db.txs[2] == Ended(Ok2xx, true)
    ensures |db.done| == 2 && db.done[0].op.Upsert? && db.done[1].op == Delete(k) && IdsAscend(db.done)
    ensures k in db.rows && k !in Replay(db.done) && Overtaken(db.done, k)
  {
    var put, drop := Ask("a", Upsert(k, "p"), true), Ask("b", Delete(k), true);
    var both, db2 := PutAndDrop(k, put, drop);
    var three, db3 := ThenCommit(both, db2, 1);
    steps, db := ThenCommit(three, db3, 2);
    var d := Done(1, put.op, true, EntryFor(put, Some(Row(1, "p"))), 1);
    var e := Done(2, drop.op, false, EntryFor(drop, None), 2);
    CommitBoth(k, put, drop, db2, d, e);
    PutThenMiss(k, d, e);
  }

  lemma CommitBoth(k: Key, put: Ask, drop: Ask, db: Db, d: Done, e: Done)
    requires put.op == Upsert(k, "p") && drop.op == Delete(k) && db.rows == map[] && db.done == []
    requires 1 in db.txs && db.txs[1] == Audited(put, Some(Row(1, "p")), true, 1)
    requires 2 in db.txs && db.txs[2] == Audited(drop, None, false, 2)
    requires d == Done(1, put.op, true, EntryFor(put, Some(Row(1, "p"))), 1)
    requires e == Done(2, drop.op, false, EntryFor(drop, None), 2)
    ensures var db' := Committed(Committed(db, 1, Ok2xx), 2, Ok2xx);
            && db'.done == [d] + [e] && db'.rows == map[k := Row(1, "p")]
            && db'.txs == db.txs[1 := Ended(Ok2xx, true)][2 := Ended(Ok2xx, true)]
  {
  }

  lemma PutAndDrop(k: Key, put: Ask, drop: Ask) returns (steps: seq<Step>, db: Db)
    requires put.valid && drop.valid && put.op == Upsert(k, "p") && drop.op == Delete(k)
    ensures db == Exec(EMPTY_DB, steps) && db.rows == map[] && db.done == []
    ensures 1 in db.txs && db.txs[1] == Audited(put, Some(Row(1, "p")), true, 1)
    ensures 2 in db.txs && db.txs[2] == Audited(drop, None, false, 2)
  {
    var one, db1 := UpToAudited([], EMPTY_DB, 1, put, Some(Row(1, "p")), true);
    steps, db := UpToAudited(one, db1, 2, drop, None, false);
  }

  lemma PutThenMiss(k: Key, d: Done, e: Done)
    requires d.op.Upsert? && d.op.key == k && d.wrote && e.op == Delete(k) && !e.wrote
    ensures k !in Replay([d] + [e]) && Overtaken([d] + [e], k)
  {
    var none: seq<Done> := [];
    assert none + [d] == [d];
    GetGrows(none, d, k);
    GetGrows([d], e, k);
    HistoryGrows(none, d);
    OvertakenGrows([d], e, k);
  }

  // ---------------------------------------------------------------- audit ids

  predicate IdsAscend(done: seq<Done>) {
    forall i, j :: 0 <= i < j < |done| ==> done[i].auditId < done[j].auditId
  }

  /** Step `i` of the run writes the audit row of transaction `t`. */
  predicate Appends(steps: seq<Step>, i: nat, t: nat) {
    && i < |steps| && steps[i] == Append(t, false)
    && var txs := Exec(EMPTY_DB, steps[..i]).txs; t in txs && txs[t].Mutated?
  }

  /** The id that step `i` would hand out. */
  function IdAt(steps: seq<Step>, i: nat): nat requires i <= |steps| { Exec(EMPTY_DB, steps[..i]).nextId }

  lemma PrefixGrows(steps: seq<Step>, i: nat)
    requires i < |steps|
    ensures Exec(EMPTY_DB, steps[..i + 1]) == Apply(Exec(EMPTY_DB, steps[..i]), steps[i])
  {
    assert Front(steps[..i + 1]) == steps[..i];
  }

  lemma {:induction false} IdsNeverGoBack(steps: seq<Step>, i: nat, j: nat)
    requires i <= j <= |steps|
    ensures IdAt(steps, i) <= IdAt(steps, j)
    decreases j
  {
    if i < j {
      IdsNeverGoBack(steps, i, j - 1);
      PrefixGrows(steps, j - 1);
      StepKeepsIds(Exec(EMPTY_DB, steps[..j - 1]), steps[j - 1]);
    }
  }

  lemma StepKeepsIds(db: Db, step: Step)
    ensures db.nextId <= Apply(db, step).nextId
  {
  }

  /** In every run audit ids ascend in the order in which the audit rows are written. */
  lemma IdsFollowAppends(steps: seq<Step>, i: nat, t: nat, j: nat)
    requires Appends(steps, i, t) && i < j <= |steps|
    ensures IdAt(steps, i) < IdAt(steps, j)
  {
    PrefixGrows(steps, i);
    IdsNeverGoBack(steps, i + 1, j);
  }

  predicate Written(txs: map<nat, Tx>, t: nat) { t in txs && (txs[t].Audited? || txs[t].Ended?) }

  lemma {:induction false} WrittenStays(steps: seq<Step>, i: nat, j: nat, t: nat)
    requires i <= j <= |steps| && Written(Exec(EMPTY_DB, steps[..i]).txs, t)
    ensures Written(Exec(EMPTY_DB, steps[..j]).txs, t)
    decreases j
  {
    if i < j {
      WrittenStays(steps, i, j - 1, t);
      PrefixGrows(steps, j - 1);
      StepKeepsWritten(Exec(EMPTY_DB, steps[..j - 1]), steps[j - 1], t);
    }
  }

  lemma StepKeepsWritten(db: Db, step: Step, t: nat)
    requires Written(db.txs, t)
    ensures Written(Apply(db, step).txs, t)
  {
    if step.t != t { OthersStay(db, step, t); }
  }

  lemma OthersStay(db: Db, step: Step, t: nat)
    requires step.t != t && t in db.txs
    ensures t in Apply(db, step).txs && Apply(db, step).txs[t] == db.txs[t]
  {
  }

  /** A transaction writes its audit row once. */
  lemma AppendsOnce(steps: seq<Step>, i: nat, j: nat, t: nat)
    requires Appends(steps, i, t) && Appends(steps, j, t)
    ensures i == j
  {
    var a, b := if i < j then i else j, if i < j then j else i;
    PrefixGrows(steps, a);
    if a < b { WrittenStays(steps, a + 1, b, t); }
  }

  /** The step that gave a transaction its id. */
  ghost predicate HasAppend(steps: seq<Step>, t: nat, id: nat) {
    exists i: nat :: Appends(steps, i, t) && IdAt(steps, i) == id
  }

  ghost predicate IdsComeFromAppends(steps: seq<Step>, db: Db) {
    && (forall t :: t in db.txs && db.txs[t].Audited? ==> HasAppend(steps, t, db.txs[t].auditId))
    && (forall j :: 0 <= j < |db.done| ==> HasAppend(steps, db.done[j].tx, db.done[j].auditId))
  }

  lemma AppendStays(steps: seq<Step>, t: nat, id: nat)
    requires steps != [] && HasAppend(Front(steps), t, id)
    ensures HasAppend(steps, t, id)
  {
    var i: nat :| Appends(Front(steps), i, t) && IdAt(Front(steps), i) == id;
    assert Front(steps)[..i] == steps[..i];
    assert Appends(steps, i, t) && IdAt(steps, i) == id;
  }

  lemma {:induction false} RunIdsComeFromAppends(steps: seq<Step>)
    ensures IdsComeFromAppends(steps, Exec(EMPTY_DB, steps))
  {
    if steps != [] {
      var db, step := Exec(EMPTY_DB, Front(steps)), Last(steps);
      var db' := Apply(db, step);
      RunIdsComeFromAppends(Front(steps));
      forall t | t in db'.txs && db'.txs[t].Audited? ensures HasAppend(steps, t, db'.txs[t].auditId) {
        NewlyAudited(db, step, t);
        if step == Append(t, false) && t in db.txs && db.txs[t].Mutated? {
          assert steps[..|steps| - 1] == Front(steps);
          assert Appends(steps, |steps| - 1, t) && IdAt(steps, |steps| - 1) == db.nextId;
        } else {
          AppendStays(steps, t, db.txs[t].auditId);
        }
      }
      forall j | 0 <= j < |db'.done| ensures HasAppend(steps, db'.done[j].tx, db'.done[j].auditId) {
        NewlyDone(db, step, j);
        AppendStays(steps, db'.done[j].tx, db'.done[j].auditId);
      }
    }
  }

  lemma NewlyAudited(db: Db, step: Step, t: nat)
    requires t in Apply(db, step).txs && Apply(db, step).txs[t].Audited?
    ensures t in db.txs
    ensures if step == Append(t, false) && db.txs[t].Mutated? then Apply(db, step).txs[t].auditId == db.nextId
            else Apply(db, step).txs[t] == db.txs[t]
  {
  }

  lemma NewlyDone(db: Db, step: Step, j: nat)
    requires j < |Apply(db, step).done|
    ensures var d := Apply(db, step).done[j];
            if j < |db.done| then d == db.done[j]
            else d.tx in db.txs && db.txs[d.tx].Audited? && db.txs[d.tx].auditId == d.auditId
  {
  }

  /** Committed transactions commit in the order in which they wrote their audit rows. */
  ghost predicate CommitsFollowAppends(steps: seq<Step>) {
    var done := Exec(EMPTY_DB, steps).done;
    forall a, b, i: nat, j: nat ::
      0 <= a < b < |done| && Appends(steps, i, done[a].tx) && Appends(steps, j, done[b].tx) ==> i < j
  }

  /** In every run the log in id order is the log in commit order exactly when transactions commit in the
      order in which they wrote their audit rows. */
  lemma IdOrderIsCommitOrderExactly(steps: seq<Step>)
    ensures IdsAscend(Exec(EMPTY_DB, steps).done) <==> CommitsFollowAppends(steps)
  {
    var done := Exec(EMPTY_DB, steps).done;
    RunIdsComeFromAppends(steps);
    forall a, b, i: nat, j: nat
      | 0 <= a < b < |done| && Appends(steps, i, done[a].tx) && Appends(steps, j, done[b].tx)
      ensures done[a].auditId < done[b].auditId <==> i < j
    {
      IdOfAppend(steps, i, done[a].tx, done[a].auditId);
      IdOfAppend(steps, j, done[b].tx, done[b].auditId);
      if i < j { IdsFollowAppends(steps, i, done[a].tx, j); }
      if j <= i { IdsNeverGoBack(steps, j, i); }
    }
    if CommitsFollowAppends(steps) {
      forall a, b | 0 <= a < b < |done| ensures done[a].auditId < done[b].auditId {
        var i: nat :| Appends(steps, i, done[a].tx) && IdAt(steps, i) == done[a].auditId;
        var j: nat :| Appends(steps, j, done[b].tx) && IdAt(steps, j) == done[b].auditId;
      }
    }
  }

  lemma IdOfAppend(steps: seq<Step>, i: nat, t: nat, id: nat)
    requires Appends(steps, i, t) && HasAppend(steps, t, id)
    ensures IdAt(steps, i) == id
  {
    var j: nat :| Appends(steps, j, t) && IdAt(steps, j) == id;
    AppendsOnce(steps, i, j, t);
  }

  /** Two overlapping transactions can commit in the other order, and then the ids are out of order. */
  lemma IdOrderCanDiffer(x: Key, y: Key) returns (steps: seq<Step>)
    ensures !IdsAscend(Exec(EMPTY_DB, steps).done)
  {
    var one, db1 := UpToAudited([], EMPTY_DB, 1, Ask("a", Delete(x), true), None, false);
    var two, db2 := UpToAudited(one, db1, 2, Ask("b", Delete(y), true), None, false);
    var three, db3 := ThenCommit(two, db2, 2);
    var four, db4 := ThenCommit(three, db3, 1);
    steps := four;
    assert db4.done[0].auditId == 2 && db4.done[1].auditId == 1;
  }

  // ---------------------------------------------------------------- who waits

  /** The transaction is open and has written this key. */
  predicate Holds(db: Db, t: nat, k: Key) { t in db.txs && Holding(db.txs[t]) && db.txs[t].ask.op.key == k }

  /** A row is locked exactly by the open transaction that wrote it. */
  ghost predicate LocksHeld(db: Db) {
    && (forall k :: k in db.locks ==> Holds(db, db.locks[k], k))
    && (forall t :: t in db.txs && Holding(db.txs[t]) ==>
          var k := db.txs[t].ask.op.key; k in db.locks && db.locks[k] == t)
  }

  lemma EndKeepsLocks(db: Db, t: nat, status: Status, applied: bool)
    requires LocksHeld(db) && t in db.txs
    ensures LocksHeld(db.(txs := db.txs[t := Ended(status, applied)], locks := Unlocked(db, db.txs[t])))
  {
    var db' := db.(txs := db.txs[t := Ended(status, applied)], locks := Unlocked(db, db.txs[t]));
    forall k | k in db'.locks ensures Holds(db', db'.locks[k], k) {
      assert Holds(db, db.locks[k], k);
      assert db.locks[k] != t;
    }
  }

  lemma MoveKeepsLocks(db: Db, t: nat, x: Tx)
    requires LocksHeld(db)
    requires if t in db.txs then Holding(x) == Holding(db.txs[t]) else !Holding(x)
    requires Holding(x) ==> x.ask == db.txs[t].ask
    ensures LocksHeld(WithTx(db, t, x))
  {
    var db' := WithTx(db, t, x);
    forall k | k in db'.locks ensures Holds(db', db'.locks[k], k) { assert Holds(db, db.locks[k], k); }
  }

  lemma TakeKeepsLocks(db: Db, t: nat, x: Tx)
    requires LocksHeld(db) && t in db.txs && !Holding(db.txs[t]) && Holding(x) && x.ask.op.key !in db.locks
    ensures LocksHeld(WithTx(db, t, x).(locks := db.locks[x.ask.op.key := t]))
  {
    var db' := WithTx(db, t, x).(locks := db.locks[x.ask.op.key := t]);
    forall k | k in db'.locks ensures Holds(db', db'.locks[k], k) {
      if k != x.ask.op.key { assert Holds(db, db.locks[k], k); }
    }
  }

  lemma MutateKeepsLocks(db: Db, t: nat)
    requires LocksHeld(db) && t in db.txs && db.txs[t].Begun?
    ensures LocksHeld(MutateStep(db, t))
  {
    var ask := db.txs[t].ask;
    var before := Get(db.rows, ask.op.key);
    var after := Effect(ask.op, before, t);
    if after.None? {
      EndKeepsLocks(db, t, NotFound404, false);
    } else if !Writes(ask.op, before) {
      MoveKeepsLocks(db, t, Mutated(ask, None, false));
    } else if ask.op.key !in db.locks {
      TakeKeepsLocks(db, t, Mutated(ask, after.value, true));
    }
  }

  lemma CommitKeepsLocks(db: Db, t: nat, status: Status)
    requires LocksHeld(db) && t in db.txs && db.txs[t].Audited?
    ensures LocksHeld(Committed(db, t, status))
  {
    EndKeepsLocks(db, t, status, true);
    var ended := db.(txs := db.txs[t := Ended(status, true)], locks := Unlocked(db, db.txs[t]));
    SameLocks(ended, Committed(db, t, status));
  }

  lemma SameLocks(a: Db, b: Db)
    requires LocksHeld(a) && a.txs == b.txs && a.locks == b.locks
    ensures LocksHeld(b)
  {
    forall k | k in b.locks ensures Holds(b, b.locks[k], k) { assert Holds(a, a.locks[k], k); }
  }

  lemma AppendKeepsLocks(db: Db, t: nat)
    requires LocksHeld(db) && t in db.txs && db.txs[t].Mutated?
    ensures LocksHeld(Apply(db, Append(t, false)))
  {
    var x := db.txs[t];
    var moved := WithTx(db, t, Audited(x.ask, x.after, x.wrote, db.nextId));
    MoveKeepsLocks(db, t, moved.txs[t]);
    SameLocks(moved, Apply(db, Append(t, false)));
  }

  lemma StepKeepsLocks(db: Db, step: Step)
    requires LocksHeld(db)
    ensures LocksHeld(Apply(db, step))
  {
    var t := step.t;
    if step.Receive? {
      if t !in db.txs {
        MoveKeepsLocks(db, t, if step.ask.valid then Received(step.ask) else Ended(Invalid400, false));
      }
    } else if t in db.txs && !db.txs[t].Ended? {
      EndKeepsLocks(db, t, Failed500, false);
      match step
      case Begin(_, fault) => if !fault && db.txs[t].Received? { MoveKeepsLocks(db, t, Begun(db.txs[t].ask)); }
      case Mutate(_, fault) => if !fault && db.txs[t].Begun? { MutateKeepsLocks(db, t); }
      case Append(_, fault) => if !fault && db.txs[t].Mutated? { AppendKeepsLocks(db, t); }
      case Commit(_, fate) =>
        if db.txs[t].Audited? { CommitKeepsLocks(db, t, if fate.Confirmed? then Ok2xx else Failed500); }
      case _ =>
    }
  }

  lemma {:induction false} RunKeepsLocks(steps: seq<Step>)
    ensures LocksHeld(Exec(EMPTY_DB, steps))
  {
    if steps != [] {
      RunKeepsLocks(Front(steps));
      StepKeepsLocks(Exec(EMPTY_DB, Front(steps)), Last(steps));
    }
  }

  /** The transaction has a row to write that another open one has written. */
  ghost predicate MustWait(db: Db, t: nat)
    requires t in db.txs && db.txs[t].Begun?
  {
    var op := db.txs[t].ask.op;
    (op.Upsert? || op.key in db.rows) && exists u :: u != t && Holds(db, u, op.key)
  }

  /** In every run a statement waits exactly while another transaction that wrote its row is open, if it has a
      row to write: whoever ended, in whatever way, keeps nobody waiting. */
  lemma WaitsExactly(steps: seq<Step>, t: nat)
    requires t in Exec(EMPTY_DB, steps).txs && Exec(EMPTY_DB, steps).txs[t].Begun?
    ensures var db := Exec(EMPTY_DB, steps); Exec(EMPTY_DB, steps + [Mutate(t, false)]) == db <==> MustWait(db, t)
  {
    var db := Exec(EMPTY_DB, steps);
    var key := db.txs[t].ask.op.key;
    RunKeepsLocks(steps);
    assert Front(steps + [Mutate(t, false)]) == steps;
    assert Exec(EMPTY_DB, steps + [Mutate(t, false)]) == MutateStep(db, t);
    MutateWaits(db, t);
    if key in db.locks { assert Holds(db, db.locks[key], key); }
  }

  lemma MutateWaits(db: Db, t: nat)
    requires t in db.txs && db.txs[t].Begun?
    ensures var op := db.txs[t].ask.op;
            MutateStep(db, t) == db <==> (op.Upsert? || op.key in db.rows) && op.key in db.locks
  {
    var db' := MutateStep(db, t);
    if db' == db { assert db'.txs[t].Begun?; }
  }
}
