/** The tables that the compiler reads (control-plane/internal/store/postgres.go, sql/schema.sql), with
    the failover chain kept under its keys by every upsert and delete. */
module Store {
  import opened Text
  import opened Sorting

  /** `peer_host` and `peer_port` of a profile's config, as far as it decodes. */
  datatype PortValue = NoPort | NumberPort(v: real) | TextPort(s: string)
  datatype PeerConfig = PeerConfig(host: string, port: PortValue)

  datatype Profile = Profile(id: string, name: string, enabled: bool, config: PeerConfig)

  datatype Target = Target(id: string, publicAlias: string, privateIP: string, profileId: string, enabled: bool)

  datatype TierRow = TierRow(targetId: string, profileId: string, tier: int)

  // ---------------------------------------------------------------- target_tunnel_tiers

  /** The primary key (target, tier). */
  predicate KeysUnique(rows: seq<TierRow>) {
    forall i, j :: 0 <= i < j < |rows| && rows[i].targetId == rows[j].targetId ==> rows[i].tier != rows[j].tier
  }

  /** The UNIQUE constraint (target, profile). */
  predicate ProfilesUnique(rows: seq<TierRow>) {
    forall i, j :: 0 <= i < j < |rows| && rows[i].targetId == rows[j].targetId ==>
      rows[i].profileId != rows[j].profileId
  }

  predicate TableOk(rows: seq<TierRow>) {
    KeysUnique(rows) && ProfilesUnique(rows) && forall i :: 0 <= i < |rows| ==> rows[i].tier >= 0
  }

  /** The row with this key, or the length. */
  function IndexOfKey(rows: seq<TierRow>, targetId: string, tier: int): (i: nat)
    ensures i <= |rows|
    ensures i < |rows| ==> rows[i].targetId == targetId && rows[i].tier == tier
    ensures i == |rows| ==> forall j :: 0 <= j < |rows| ==> !(rows[j].targetId == targetId && rows[j].tier == tier)
  {
    if rows == [] then 0
    else if rows[0].targetId == targetId && rows[0].tier == tier then 0
    else 1 + IndexOfKey(rows[1..], targetId, tier)
  }

  /** Insert, or on a key conflict replace the profile. */
  function Upserted(rows: seq<TierRow>, r: TierRow): seq<TierRow> {
    var i := IndexOfKey(rows, r.targetId, r.tier);
    if i < |rows| then rows[i := r] else rows + [r]
  }

  /** An upsert puts its row in the place of the one with the same key and touches no other. */
  lemma UpsertReplaces(rows: seq<TierRow>, r: TierRow, x: TierRow)
    requires KeysUnique(rows)
    ensures x in Upserted(rows, r) <==> x == r || (x in rows && !(x.targetId == r.targetId && x.tier == r.tier))
  {
    var i := IndexOfKey(rows, r.targetId, r.tier);
    var u := Upserted(rows, r);
    if x in rows {
      var j :| 0 <= j < |rows| && rows[j] == x;
      assert j != i ==> u[j] == x;
    }
    if i < |rows| { assert u[i] == r; }
  }

  function Without(rows: seq<TierRow>, drop: TierRow -> bool): seq<TierRow> {
    if rows == [] then [] else Without(Front(rows), drop) + if drop(Last(rows)) then [] else [Last(rows)]
  }

  /** The statements that change the table. Deleting a target or a profile cascades to it. */
  datatype TierOp =
    | PutTier(row: TierRow)
    | DropTier(targetId: string, tier: int)
    | DropTarget(targetId: string)
    | DropProfile(profileId: string)

  /** A statement that violates a constraint fails and leaves the table alone. */
  function ApplyTierOp(rows: seq<TierRow>, op: TierOp): seq<TierRow> {
    match op
    case PutTier(r) =>
      var u := Upserted(rows, r);
      if r.tier >= 0 && ProfilesUnique(u) then u else rows
    case DropTier(t, n) => Without(rows, (r: TierRow) => r.targetId == t && r.tier == n)
    case DropTarget(t) => Without(rows, (r: TierRow) => r.targetId == t)
    case DropProfile(p) => Without(rows, (r: TierRow) => r.profileId == p)
  }

  function RunTierOps(ops: seq<TierOp>): seq<TierRow> {
    if ops == [] then [] else ApplyTierOp(RunTierOps(Front(ops)), Last(ops))
  }

  lemma {:induction false} WithoutKeeps(rows: seq<TierRow>, drop: TierRow -> bool)
    requires TableOk(rows)
    ensures TableOk(Without(rows, drop))
    ensures forall r :: r in Without(rows, drop) <==> r in rows && !drop(r)
  {
    if rows != [] {
      WithoutKeeps(Front(rows), drop);
      var kept, last := Without(Front(rows), drop), Last(rows);
      assert rows == Front(rows) + [last];
      forall i | 0 <= i < |kept| ensures kept[i] in Front(rows) { assert kept[i] in kept; }
    }
  }

  /** No other tier of the target already has this profile, and the tier is not negative. */
  ghost predicate Accepts(rows: seq<TierRow>, r: TierRow) {
    r.tier >= 0 && forall y :: y in rows && y.targetId == r.targetId && y.profileId == r.profileId ==> y.tier == r.tier
  }

  lemma UpsertAcceptedExactly(rows: seq<TierRow>, r: TierRow)
    requires TableOk(rows) && r.tier >= 0
    ensures ProfilesUnique(Upserted(rows, r)) <==> Accepts(rows, r)
  {
    var i, u := IndexOfKey(rows, r.targetId, r.tier), Upserted(rows, r);
    assert u[i] == r && forall j :: 0 <= j < |rows| && j != i ==> u[j] == rows[j];
    if ProfilesUnique(u) {
      forall y | y in rows && y.targetId == r.targetId && y.profileId == r.profileId ensures y.tier == r.tier {
        var j :| 0 <= j < |rows| && rows[j] == y;
        assert j < i || i < j || j == i;
      }
    }
  }

  /** Which rows each statement leaves: an upsert that the constraints accept replaces the row of its key,
      one that they refuse changes nothing, and a delete takes exactly the rows of its key, of its target or
      of its profile. */
  lemma TierOpLeaves(rows: seq<TierRow>, op: TierOp, x: TierRow)
    requires TableOk(rows)
    ensures x in ApplyTierOp(rows, op) <==>
      match op
      case PutTier(r) =>
        if Accepts(rows, r) then x == r || (x in rows && (x.targetId != r.targetId || x.tier != r.tier)) else x in rows
      case DropTier(t, n) => x in rows && (x.targetId != t || x.tier != n)
      case DropTarget(t) => x in rows && x.targetId != t
      case DropProfile(p) => x in rows && x.profileId != p
  {
    match op
    case PutTier(r) =>
      UpsertReplaces(rows, r, x);
      if r.tier >= 0 { UpsertAcceptedExactly(rows, r); }
    case DropTier(t, n) => WithoutKeeps(rows, (r: TierRow) => r.targetId == t && r.tier == n);
    case DropTarget(t) => WithoutKeeps(rows, (r: TierRow) => r.targetId == t);
    case DropProfile(p) => WithoutKeeps(rows, (r: TierRow) => r.profileId == p);
  }

  /** Every run of upserts and deletes keeps the chain's keys. */
  lemma {:induction false} TierOpsKeepKeys(ops: seq<TierOp>)
    ensures TableOk(RunTierOps(ops))
  {
    if ops != [] {
      var rows := RunTierOps(Front(ops));
      TierOpsKeepKeys(Front(ops));
      match Last(ops)
      case PutTier(r) =>
      case DropTier(t, n) => WithoutKeeps(rows, (r: TierRow) => r.targetId == t && r.tier == n);
      case DropTarget(t) => WithoutKeeps(rows, (r: TierRow) => r.targetId == t);
      case DropProfile(p) => WithoutKeeps(rows, (r: TierRow) => r.profileId == p);
    }
  }

  predicate TierLe(a: TierRow, b: TierRow) { a.tier <= b.tier }

  /** `ListTiers`: a target's rows by ascending tier. */
  function ListTiers(rows: seq<TierRow>, targetId: string): seq<TierRow> {
    Sort(Without(rows, (r: TierRow) => r.targetId != targetId), TierLe)
  }

  predicate Ascending(chain: seq<TierRow>) {
    forall i, j :: 0 <= i < j < |chain| ==> chain[i].tier < chain[j].tier
  }

  /** The listed chain is exactly the target's rows, strictly ascending. */
  lemma ListTiersAscends(rows: seq<TierRow>, targetId: string)
    requires TableOk(rows)
    ensures Ascending(ListTiers(rows, targetId))
    ensures forall r :: r in ListTiers(rows, targetId) <==> r in rows && r.targetId == targetId
  {
    var drop := (r: TierRow) => r.targetId != targetId;
    var own, chain := Without(rows, drop), ListTiers(rows, targetId);
    WithoutKeeps(rows, drop);
    SortSorts(own, TierLe);
    assert forall r :: r in chain ==> r.targetId == targetId;
    forall i, j | 0 <= i < j < |chain| ensures chain[i].tier < chain[j].tier {
      assert TierLe(chain[i], chain[j]);
      if chain[i].tier == chain[j].tier {
        RowsWithOneKey(own, chain[i], chain[j]);
        TwiceInOrder(chain, own, i, j);
      }
    }
  }

  lemma RowsWithOneKey(rows: seq<TierRow>, a: TierRow, b: TierRow)
    requires KeysUnique(rows) && a in rows && b in rows
    requires a.targetId == b.targetId && a.tier == b.tier
    ensures a == b && multiset(rows)[a] == 1
  {
    var i :| 0 <= i < |rows| && rows[i] == a;
    assert rows == rows[..i] + [a] + rows[i + 1..];
    assert a !in rows[..i] && a !in rows[i + 1..];
  }

  lemma TwiceInOrder(s: seq<TierRow>, rows: seq<TierRow>, i: nat, j: nat)
    requires multiset(s) == multiset(rows) && i < j < |s| && s[i] == s[j]
    ensures multiset(rows)[s[i]] >= 2
  {
    assert s == s[..i] + [s[i]] + s[i + 1..];
    assert s[j] in s[i + 1..];
  }
}
