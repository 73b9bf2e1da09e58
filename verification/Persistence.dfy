/** Saving the store column by column and loading it back. */
module Persistence {
  import opened Prelude
  import opened BitCodes
  import opened MemoryStore
  import opened MemoryLaws
  import opened MemoryServices

  const PERSIST_VERSION := 3

  /** The archive once decoded: one column per entry field, plus the configuration in `meta`. */
  datatype Archive = Archive(
    version: int,
    metaVersion: int,
    dim: nat,
    seed: int,
    factors: map<string, real>,
    centroid: Option<Vec>,
    traceIds: seq<Bytes>,
    kinds: seq<string>,
    pinned: seq<bool>,
    payloads: seq<Option<Bytes>>,
    codes: seq<Bytes>,
    l1s: seq<real>,
    norms: seq<real>,
    weights: seq<real>,
    lastDecays: seq<int>
  )

  datatype LoadError = VersionMismatch | UnsupportedVersion | RowCountMismatch

  function Column<T>(entries: seq<Entry>, field: Entry -> T): (c: seq<T>)
    ensures |c| == |entries|
  {
    seq(|entries|, i requires 0 <= i < |entries| => field(entries[i]))
  }

  function Saved(env: Platform, st: Store): Archive {
    var es := st.entries;
    Archive(PERSIST_VERSION, PERSIST_VERSION, st.dim, st.seed, st.factors, st.centroid,
            Column(es, (e: Entry) => e.traceId), Column(es, (e: Entry) => e.kind),
            Column(es, (e: Entry) => e.pinned), Column(es, (e: Entry) => Some(e.payload)),
            Column(es, (e: Entry) => e.code),
            Cast(env, Column(es, (e: Entry) => e.l1)), Cast(env, Column(es, (e: Entry) => e.norm)),
            Cast(env, Column(es, (e: Entry) => e.weight)), Column(es, (e: Entry) => e.lastDecay))
  }

  predicate EqualRowCounts(a: Archive) {
    var n := |a.traceIds|;
    && |a.kinds| == n && |a.pinned| == n && |a.payloads| == n && |a.codes| == n
    && |a.l1s| == n && |a.norms| == n && |a.weights| == n && |a.lastDecays| == n
  }

  function Row(env: Platform, a: Archive, i: nat): Entry
    requires EqualRowCounts(a) && i < |a.traceIds|
  {
    Entry(a.traceIds[i], a.kinds[i], a.pinned[i],
          if a.payloads[i].Some? then a.payloads[i].value else EMPTY_OBJECT,
          a.codes[i], (env.float32)(a.l1s[i]), (env.float32)(a.norms[i]), (env.float32)(a.weights[i]), a.lastDecays[i])
  }

  /** The dictionary after the first n rows have been stored in turn. */
  function Restored(env: Platform, a: Archive, n: nat): seq<Entry>
    requires EqualRowCounts(a) && n <= |a.traceIds|
  {
    if n == 0 then [] else Put(Restored(env, a, n - 1), Row(env, a, n - 1))
  }

  function Loaded(env: Platform, a: Archive): Result<Store, LoadError> {
    if a.version != a.metaVersion then Err(VersionMismatch)
    else if a.version != PERSIST_VERSION then Err(UnsupportedVersion)
    else if !EqualRowCounts(a) then Err(RowCountMismatch)
    else
      var centroid := if a.centroid.Some? then Some(Cast(env, a.centroid.value)) else None;
      Ok(Store(a.dim, a.seed, a.factors, centroid, Restored(env, a, |a.traceIds|)))
  }

  method Save(mem: MemoryService) returns (a: Archive)
    ensures a == Saved(mem.env, mem.View())
  {
    a := Saved(mem.env, mem.View());
  }

  method Load(env: Platform, a: Archive) returns (r: Result<MemoryService, LoadError>)
    ensures match Loaded(env, a)
            case Ok(st) => r.Ok? && fresh(r.value) && r.value.env == env && r.value.View() == st
            case Err(e) => r == Err(e)
  {
    if a.version != a.metaVersion {
      return Err(VersionMismatch);
    }
    if a.version != PERSIST_VERSION {
      return Err(UnsupportedVersion);
    }
    if !EqualRowCounts(a) {
      return Err(RowCountMismatch);
    }
    var inst := new MemoryService(env, a.dim, a.factors, a.seed);
    if a.centroid.Some? {
      inst.centroid := Some(Cast(env, a.centroid.value));
    }
    var i := 0;
    while i < |a.traceIds|
      invariant 0 <= i <= |a.traceIds|
      invariant inst.entries == Restored(env, a, i)
      invariant fresh(inst) && inst.env == env && inst.dim == a.dim && inst.seed == a.seed && inst.factors == a.factors
      invariant inst.centroid == if a.centroid.Some? then Some(Cast(env, a.centroid.value)) else None
    {
      inst.entries := Put(inst.entries, Row(env, a, i));
      i := i + 1;
    }
    return Ok(inst);
  }

  // ---- Round trips ----

  ghost predicate Idempotent(float32: real -> real) {
    forall x :: float32(float32(x)) == float32(x)
  }

  ghost predicate AllCast(env: Platform, v: Vec) {
    forall i | 0 <= i < |v| :: (env.float32)(v[i]) == v[i]
  }

  /** The centroid was cast when it was set. */
  ghost predicate CentroidIsCast(env: Platform, st: Store) {
    st.centroid.Some? ==> AllCast(env, st.centroid.value)
  }

  function RoundedEntry(env: Platform, e: Entry): Entry {
    e.(l1 := (env.float32)(e.l1), norm := (env.float32)(e.norm), weight := (env.float32)(e.weight))
  }

  function RoundedEntries(env: Platform, entries: seq<Entry>): (r: seq<Entry>)
    ensures |r| == |entries|
  {
    seq(|entries|, i requires 0 <= i < |entries| => RoundedEntry(env, entries[i]))
  }

  lemma RowOfSaved(env: Platform, st: Store, i: nat)
    requires Idempotent(env.float32) && i < |st.entries|
    ensures Row(env, Saved(env, st), i) == RoundedEntry(env, st.entries[i])
  {
  }

  lemma IdsAreNew(rows: seq<Entry>, i: nat)
    requires DistinctIds(rows) && i < |rows|
    ensures !HasId(rows[..i], rows[i].traceId)
  {
    forall e | e in rows[..i] ensures e.traceId != rows[i].traceId {
      var j :| 0 <= j < i && rows[..i][j] == e;
      assert rows[j] == e;
    }
  }

  /** Rows with distinct ids come back in their order. */
  lemma {:induction false} RestoredRows(env: Platform, a: Archive, rows: seq<Entry>, n: nat)
    requires EqualRowCounts(a) && n <= |rows| == |a.traceIds| && DistinctIds(rows)
    requires forall i: nat | i < |rows| :: Row(env, a, i) == rows[i]
    ensures Restored(env, a, n) == rows[..n]
  {
    if n > 0 {
      RestoredRows(env, a, rows, n - 1);
      IdsAreNew(rows, n - 1);
      PutNew(rows[..n - 1], rows[n - 1]);
      assert rows[..n] == rows[..n - 1] + [rows[n - 1]];
    }
  }

  /** What comes back: everything exactly, but l1, norm and weight in float32. */
  lemma SaveLoad(env: Platform, st: Store)
    requires DistinctIds(st.entries) && Idempotent(env.float32) && CentroidIsCast(env, st)
    ensures Loaded(env, Saved(env, st)) == Ok(st.(entries := RoundedEntries(env, st.entries)))
  {
    var n, rows := |st.entries|, RoundedEntries(env, st.entries);
    forall i: nat | i < n ensures Row(env, Saved(env, st), i) == rows[i] {
      RowOfSaved(env, st, i);
    }
    RestoredRows(env, Saved(env, st), rows, n);
    assert rows[..n] == rows;
    if st.centroid.Some? {
      assert Cast(env, st.centroid.value) == st.centroid.value;
    }
  }

  /** A second save and load is the identity. */
  lemma SecondSaveLoad(env: Platform, st: Store)
    requires DistinctIds(st.entries) && Idempotent(env.float32) && CentroidIsCast(env, st)
    ensures var once := st.(entries := RoundedEntries(env, st.entries));
            Saved(env, once) == Saved(env, st) && Loaded(env, Saved(env, once)) == Ok(once)
  {
    var once := st.(entries := RoundedEntries(env, st.entries));
    assert Saved(env, once).l1s == Saved(env, st).l1s;
    assert Saved(env, once).norms == Saved(env, st).norms;
    assert Saved(env, once).weights == Saved(env, st).weights;
    assert Saved(env, once).traceIds == Saved(env, st).traceIds && Saved(env, once).kinds == Saved(env, st).kinds;
    assert Saved(env, once).pinned == Saved(env, st).pinned && Saved(env, once).payloads == Saved(env, st).payloads;
    assert Saved(env, once).codes == Saved(env, st).codes && Saved(env, once).lastDecays == Saved(env, st).lastDecays;
    SaveLoad(env, st);
  }

  lemma {:induction false} RoundingKeepsPinned(env: Platform, entries: seq<Entry>)
    ensures Pinned(RoundedEntries(env, entries)) == Pinned(entries)
  {
    if entries != [] {
      RoundingKeepsPinned(env, entries[1..]);
      assert RoundedEntries(env, entries)[1..] == RoundedEntries(env, entries[1..]);
    }
  }

  /** The pinned root survives a save and load. */
  lemma SaveLoadKeepsRoot(env: Platform, st: Store)
    requires DistinctIds(st.entries) && Idempotent(env.float32) && CentroidIsCast(env, st)
    ensures StoreRoot(env, Loaded(env, Saved(env, st)).value) == StoreRoot(env, st)
  {
    SaveLoad(env, st);
    RoundingKeepsPinned(env, st.entries);
  }

  /** What a program may do to a store before it saves it; a refused call changes nothing. */
  datatype Op = SetCentroid(vec: Option<Vec>) | Add(req: AddRequest, at: int) | Tick(now: int)

  function Applied(env: Platform, st: Store, op: Op): Store
    requires |Centre(st)| == st.dim
  {
    match op
    case SetCentroid(vec) => (match CentroidSet(env, st, vec) case Ok(st') => st' case Err(_) => st)
    case Add(req, at) => AfterAdd(env, st, req, at)
    case Tick(now) => st.(entries := Decayed(st.factors, st.entries, now))
  }

  ghost predicate Savable(env: Platform, st: Store) {
    |Centre(st)| == st.dim && DistinctIds(st.entries) && CentroidIsCast(env, st)
  }

  lemma CastIsCast(env: Platform, v: Vec)
    requires Idempotent(env.float32)
    ensures AllCast(env, Cast(env, v))
  {
    var c := Cast(env, v);
    forall i | 0 <= i < |c| ensures (env.float32)(c[i]) == c[i] {
      var x := v[i];
      assert c[i] == (env.float32)(x);
      assert (env.float32)((env.float32)(x)) == (env.float32)(x);
    }
  }

  lemma AppliedIsSavable(env: Platform, st: Store, op: Op)
    requires Idempotent(env.float32) && (env.float32)(0.0) == 0.0 && Savable(env, st)
    ensures Savable(env, Applied(env, st, op))
  {
    match op {
      case SetCentroid(vec) =>
        if vec.Some? {
          CastIsCast(env, vec.value);
        }
      case Add(req, at) =>
        if Added(env, st, req, at).Ok? {
          PutMembers(st.entries, NewEntry(env, st, req, at));
        }
      case Tick(now) => SurvivorsDistinct(AllAged(st.factors, st.entries, now));
    }
  }

  ghost function Built(env: Platform, st: Store, ops: seq<Op>): Store
    requires Idempotent(env.float32) && (env.float32)(0.0) == 0.0 && Savable(env, st)
    decreases |ops|
  {
    if ops == [] then st
    else
      AppliedIsSavable(env, st, ops[0]);
      Built(env, Applied(env, st, ops[0]), ops[1..])
  }

  lemma {:induction false} BuiltIsSavable(env: Platform, st: Store, ops: seq<Op>)
    requires Idempotent(env.float32) && (env.float32)(0.0) == 0.0 && Savable(env, st)
    ensures Savable(env, Built(env, st, ops))
    decreases |ops|
  {
    if ops != [] {
      AppliedIsSavable(env, st, ops[0]);
      BuiltIsSavable(env, Applied(env, st, ops[0]), ops[1..]);
    }
  }

  /** Every store built from an empty one by setting the centroid, adding and decaying survives a save and load. */
  lemma BuiltStoresRoundTrip(env: Platform, empty: Store, ops: seq<Op>)
    requires Idempotent(env.float32) && (env.float32)(0.0) == 0.0
    requires empty.entries == [] && empty.centroid.None?
    ensures var st := Built(env, empty, ops);
            && Loaded(env, Saved(env, st)) == Ok(st.(entries := RoundedEntries(env, st.entries)))
            && StoreRoot(env, Loaded(env, Saved(env, st)).value) == StoreRoot(env, st)
  {
    BuiltIsSavable(env, empty, ops);
    SaveLoad(env, Built(env, empty, ops));
    SaveLoadKeepsRoot(env, Built(env, empty, ops));
  }

  lemma PutHas(entries: seq<Entry>, e: Entry, id: Bytes)
    requires DistinctIds(entries)
    ensures HasId(Put(entries, e), id) <==> id == e.traceId || HasId(entries, id)
  {
    PutMembers(entries, e);
    assert e in Put(entries, e);
    if HasId(entries, id) && id != e.traceId {
      var x :| x in entries && x.traceId == id;
      assert x in Put(entries, e);
    }
  }

  lemma {:induction false} RestoredIsDictionary(env: Platform, a: Archive, n: nat)
    requires EqualRowCounts(a) && n <= |a.traceIds|
    ensures DistinctIds(Restored(env, a, n))
  {
    if n > 0 {
      RestoredIsDictionary(env, a, n - 1);
      PutMembers(Restored(env, a, n - 1), Row(env, a, n - 1));
    }
  }

  lemma {:induction false} RestoredHasIds(env: Platform, a: Archive, n: nat, i: nat)
    requires EqualRowCounts(a) && i < n <= |a.traceIds|
    ensures HasId(Restored(env, a, n), a.traceIds[i])
  {
    RestoredIsDictionary(env, a, n - 1);
    PutHas(Restored(env, a, n - 1), Row(env, a, n - 1), a.traceIds[i]);
    if i < n - 1 {
      RestoredHasIds(env, a, n - 1, i);
    }
  }

  /** Rows with distinct ids come back in order, each from its own columns; a missing payload is an empty object. */
  lemma LoadedRows(env: Platform, a: Archive, i: nat)
    requires Loaded(env, a).Ok? && i < |a.traceIds|
    requires forall j, k | 0 <= j < k < |a.traceIds| :: a.traceIds[j] != a.traceIds[k]
    ensures var es := Loaded(env, a).value.entries;
            && |es| == |a.traceIds|
            && es[i] == Entry(a.traceIds[i], a.kinds[i], a.pinned[i],
                              if a.payloads[i].Some? then a.payloads[i].value else [123, 125], a.codes[i],
                              (env.float32)(a.l1s[i]), (env.float32)(a.norms[i]), (env.float32)(a.weights[i]),
                              a.lastDecays[i])
  {
    var n := |a.traceIds|;
    var rows := seq(n, j requires 0 <= j < n => Row(env, a, j));
    RestoredRows(env, a, rows, n);
    assert rows[..n] == rows;
  }

  /** Loading succeeds exactly on the current version with equal row counts, and then every id is there once. */
  lemma LoadAccepts(env: Platform, a: Archive)
    ensures Loaded(env, a).Ok? <==>
              && a.version == a.metaVersion == 3
              && |a.kinds| == |a.pinned| == |a.payloads| == |a.codes| == |a.traceIds|
              && |a.l1s| == |a.norms| == |a.weights| == |a.lastDecays| == |a.traceIds|
    ensures Loaded(env, a).Ok? ==>
              var st := Loaded(env, a).value;
              DistinctIds(st.entries) && forall id | id in a.traceIds :: HasId(st.entries, id)
  {
    if Loaded(env, a).Ok? {
      var n := |a.traceIds|;
      RestoredIsDictionary(env, a, n);
      forall id | id in a.traceIds ensures HasId(Restored(env, a, n), id) {
        var i :| 0 <= i < n && a.traceIds[i] == id;
        RestoredHasIds(env, a, n, i);
      }
    }
  }
}
