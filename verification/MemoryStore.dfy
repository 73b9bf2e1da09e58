/**
  The memory service as values: its entries in insertion order, the encoder, and what adding and decaying do to them.
  Time is counted in whole clock ticks, so that exp(-lambda * dt) is a power of the per-tick factor of the kind.
 */
module MemoryStore {
  import opened Prelude
  import opened BitCodes
  import opened Merkle
  import opened PinnedSlot

  /** Code the service calls into: SHA-256, the seeded rotation matrix, the L2 norm and the cast to float32. */
  datatype Platform = Platform(
    sha256: Hash,
    rotation: (nat, int, nat, nat) -> real,
    l2: Vec -> real,
    float32: real -> real
  )

  datatype Entry = Entry(
    traceId: Bytes,
    kind: string,
    pinned: bool,
    payload: Bytes,
    code: Bytes,
    l1: real,
    norm: real,
    weight: real,
    lastDecay: int
  )

  /** `factors` gives exp(-lambda) per kind; `entries` is the insertion-ordered dictionary. */
  datatype Store = Store(
    dim: nat,
    seed: int,
    factors: map<string, real>,
    centroid: Option<Vec>,
    entries: seq<Entry>
  )

  datatype MemoryError = EntriesPresent | DimensionMismatch | UnknownKind

  const THETA := 0.05
  const VALID_KINDS: set<string> := {"working", "episodic", "semantic", "pinned"}
  const EMPTY_OBJECT: Bytes := [123, 125]

  // ---- The dictionary ----

  predicate HasId(entries: seq<Entry>, id: Bytes) {
    exists e | e in entries :: e.traceId == id
  }

  ghost predicate DistinctIds(entries: seq<Entry>) {
    forall i, j | 0 <= i < j < |entries| :: entries[i].traceId != entries[j].traceId
  }

  /** `entries[id] = e`: replaces in place, or appends. */
  function Put(entries: seq<Entry>, e: Entry): seq<Entry> {
    if entries == [] then [e]
    else if entries[0].traceId == e.traceId then [e] + entries[1..]
    else [entries[0]] + Put(entries[1..], e)
  }

  // ---- The encoder ----

  function Minus(a: Vec, b: Vec): (c: Vec)
    requires |a| == |b|
    ensures |c| == |a|
  {
    seq(|a|, i requires 0 <= i < |a| => a[i] - b[i])
  }

  function Scaled(a: Vec, n: real): (c: Vec)
    requires n != 0.0
    ensures |c| == |a|
  {
    seq(|a|, i requires 0 <= i < |a| => a[i] / n)
  }

  function Zeros(n: nat): (z: Vec)
    ensures |z| == n
  {
    seq(n, _ => 0.0)
  }

  /** Coordinate i of `unit @ P.T`. */
  function RowDot(env: Platform, dim: nat, seed: int, unit: Vec, i: nat): real {
    if unit == [] then 0.0
    else RowDot(env, dim, seed, unit[..|unit| - 1], i) + unit[|unit| - 1] * env.rotation(dim, seed, i, |unit| - 1)
  }

  function Rotate(env: Platform, dim: nat, seed: int, unit: Vec): (r: Vec)
    ensures |r| == dim
  {
    seq(dim, i requires 0 <= i < dim => RowDot(env, dim, seed, unit, i))
  }

  /** The centred vector over its norm; a vector at the centroid keeps its raw direction. */
  function UnitAndNorm(env: Platform, v: Vec, centroid: Vec): (r: (Vec, real))
    requires |v| == |centroid|
    ensures |r.0| == |v|
  {
    var centred := Minus(v, centroid);
    var norm := env.l2(centred);
    if norm != 0.0 then (Scaled(centred, norm), norm)
    else if env.l2(v) == 0.0 then (Zeros(|v|), 0.0)
    else (Scaled(v, env.l2(v)), env.l2(v))
  }

  datatype Encoding = Encoding(rotated: Vec, code: Bytes, l1: real, norm: real)

  function Encode(env: Platform, dim: nat, seed: int, centroid: Vec, v: Vec): (e: Encoding)
    requires |v| == |centroid| == dim
    ensures |e.rotated| == dim && |e.code| == CodeLength(dim)
  {
    var (unit, norm) := UnitAndNorm(env, v, centroid);
    var rotated := Rotate(env, dim, seed, unit);
    Encoding(rotated, PackBits(Signs(rotated)), L1(rotated), norm)
  }

  /** The centroid in force: the origin unless one was set. */
  function Centre(st: Store): Vec {
    match st.centroid
    case Some(c) => c
    case None => Zeros(st.dim)
  }

  /** Every coordinate in float32. */
  function Cast(env: Platform, v: Vec): (r: Vec)
    ensures |r| == |v|
  {
    seq(|v|, i requires 0 <= i < |v| => (env.float32)(v[i]))
  }

  /** `set_centroid`: refused once any entry exists, because it would invalidate the stored codes. */
  function CentroidSet(env: Platform, st: Store, vec: Option<Vec>): Result<Store, MemoryError> {
    if st.entries != [] then Err(EntriesPresent)
    else if vec.None? then Ok(st.(centroid := None))
    else if |vec.value| != st.dim then Err(DimensionMismatch)
    else Ok(st.(centroid := Some(Cast(env, vec.value))))
  }

  // ---- Adding ----

  datatype AddRequest = AddRequest(traceId: Bytes, vec: Vec, kind: string, pinned: bool, payload: Option<Bytes>)

  /** The entry that `add` stores; kind and pinned flag are made to agree. */
  function NewEntry(env: Platform, st: Store, req: AddRequest, now: int): Entry
    requires |req.vec| == st.dim == |Centre(st)|
  {
    var enc := Encode(env, st.dim, st.seed, Centre(st), req.vec);
    var pinned := req.pinned || req.kind == "pinned";
    Entry(req.traceId, if pinned then "pinned" else req.kind, pinned,
          if req.payload.Some? then req.payload.value else EMPTY_OBJECT,
          enc.code, enc.l1, enc.norm, 1.0, now)
  }

  function Added(env: Platform, st: Store, req: AddRequest, now: int): Result<Store, MemoryError>
    requires |Centre(st)| == st.dim
  {
    if req.kind !in VALID_KINDS then Err(UnknownKind)
    else if |req.vec| != st.dim then Err(DimensionMismatch)
    else Ok(st.(centroid := Some(Centre(st)), entries := Put(st.entries, NewEntry(env, st, req, now))))
  }

  // ---- Decay ----

  function Pow(q: real, n: nat): real {
    if n == 0 then 1.0 else q * Pow(q, n - 1)
  }

  function Factor(factors: map<string, real>, kind: string): real {
    if kind in factors then factors[kind] else 1.0
  }

  function Elapsed(e: Entry, now: int): nat {
    if now > e.lastDecay then now - e.lastDecay else 0
  }

  function Aged(factors: map<string, real>, e: Entry, now: int): Entry {
    if e.pinned then e.(lastDecay := now)
    else e.(weight := e.weight * Pow(Factor(factors, e.kind), Elapsed(e, now)), lastDecay := now)
  }

  predicate Evicted(e: Entry) {
    !e.pinned && e.weight < THETA
  }

  function AllAged(factors: map<string, real>, entries: seq<Entry>, now: int): (r: seq<Entry>)
    ensures |r| == |entries|
  {
    seq(|entries|, i requires 0 <= i < |entries| => Aged(factors, entries[i], now))
  }

  function Survivors(entries: seq<Entry>): seq<Entry> {
    Filter(entries, (e: Entry) => !Evicted(e))
  }

  /** One decay tick. */
  function Decayed(factors: map<string, real>, entries: seq<Entry>, now: int): seq<Entry> {
    Survivors(AllAged(factors, entries, now))
  }

  // ---- The pinned slot ----

  function RecordOf(e: Entry): Record {
    Record(e.traceId, e.code, e.payload)
  }

  /** The pinned records in storage order. */
  function Pinned(entries: seq<Entry>): seq<Record> {
    if entries == [] then []
    else (if entries[0].pinned then [RecordOf(entries[0])] else []) + Pinned(entries[1..])
  }

  function StoreRoot(env: Platform, st: Store): Digest {
    PinnedRoot(env.sha256, Pinned(st.entries))
  }

  // ---- Scores ----

  /** The score of an entry for a rotated query: calibrated cosine times weight. */
  function Score(q: Vec, e: Entry): real {
    Estimate(q, e.code, e.l1) * e.weight
  }

  /** The (id, score) pairs of all entries, in storage order. */
  function Scores(q: Vec, entries: seq<Entry>): (r: seq<(Bytes, real)>)
    ensures |r| == |entries|
  {
    seq(|entries|, i requires 0 <= i < |entries| => (entries[i].traceId, Score(q, entries[i])))
  }

  /** results is a best-first list of the k best of the scored pairs, or of all of them if there are fewer. */
  ghost predicate IsTopK(results: seq<(Bytes, real)>, scored: seq<(Bytes, real)>, k: nat) {
    && |results| == (if k < |scored| then k else |scored|)
    && (forall i, j | 0 <= i < j < |results| :: results[i].1 >= results[j].1)
    && exists rest: seq<(Bytes, real)> ::
         && multiset(results) + multiset(rest) == multiset(scored)
         && forall r, o | r in results && o in rest :: r.1 >= o.1
  }

  // ---- What every operation keeps ----

  ghost predicate Decaying(factors: map<string, real>) {
    forall kind | kind in factors :: 0.0 < factors[kind] <= 1.0
  }

  ghost predicate ValidEntry(dim: nat, e: Entry) {
    && |e.code| == CodeLength(dim)
    && (e.pinned <==> e.kind == "pinned")
    && (if e.pinned then e.weight == 1.0 else THETA <= e.weight <= 1.0)
  }

  ghost predicate Valid(st: Store) {
    && DistinctIds(st.entries)
    && (st.centroid.Some? ==> |st.centroid.value| == st.dim)
    && (st.entries != [] ==> st.centroid.Some?)
    && forall e | e in st.entries :: ValidEntry(st.dim, e)
  }

  lemma {:induction false} PutMembers(entries: seq<Entry>, e: Entry)
    requires DistinctIds(entries)
    ensures DistinctIds(Put(entries, e))
    ensures forall x :: x in Put(entries, e) <==> x == e || (x in entries && x.traceId != e.traceId)
  {
    if entries != [] {
      var head, tail := entries[0], entries[1..];
      assert entries == [head] + tail;
      PutMembers(tail, e);
      if head.traceId == e.traceId {
        forall x | x in tail ensures x.traceId != e.traceId {
          var i :| 0 <= i < |tail| && tail[i] == x;
          assert entries[i + 1] == x;
        }
      } else {
        forall i | 0 <= i < |Put(tail, e)| ensures Put(tail, e)[i].traceId != head.traceId {
          assert Put(tail, e)[i] in Put(tail, e);
        }
      }
    }
  }

  lemma {:induction false} PutNew(entries: seq<Entry>, e: Entry)
    requires !HasId(entries, e.traceId)
    ensures Put(entries, e) == entries + [e]
  {
    if entries != [] {
      assert entries[0] in entries;
      assert !HasId(entries[1..], e.traceId);
      PutNew(entries[1..], e);
      assert entries == [entries[0]] + entries[1..];
    }
  }

  /** Replacing keeps every id in its place; a new id goes to the end. */
  lemma {:induction false} PutKeepsOrder(entries: seq<Entry>, e: Entry)
    ensures |Put(entries, e)| == |entries| + (if HasId(entries, e.traceId) then 0 else 1)
    ensures forall i | 0 <= i < |entries| :: Put(entries, e)[i].traceId == entries[i].traceId
  {
    if entries != [] {
      var tail := entries[1..];
      assert entries == [entries[0]] + tail;
      assert entries[0] in entries;
      if entries[0].traceId != e.traceId {
        PutKeepsOrder(tail, e);
        assert HasId(entries, e.traceId) <==> HasId(tail, e.traceId) by {
          if HasId(tail, e.traceId) {
            var x :| x in tail && x.traceId == e.traceId;
            assert x in entries;
          }
        }
      }
    }
  }

  /** Adding keeps the invariant; an id that was present is replaced, every other entry is kept. */
  lemma AddedKeepsValid(env: Platform, st: Store, req: AddRequest, now: int)
    requires Valid(st)
    ensures Added(env, st, req, now).Ok?
            <==> req.kind in {"working", "episodic", "semantic", "pinned"} && |req.vec| == st.dim
    ensures Added(env, st, req, now).Err? ==>
              (Added(env, st, req, now).error == UnknownKind <==> req.kind !in {"working", "episodic", "semantic", "pinned"})
    ensures Added(env, st, req, now).Ok? ==>
              var st' := Added(env, st, req, now).value;
              && Valid(st') && HasId(st'.entries, req.traceId)
              && forall x: Entry | x.traceId != req.traceId :: x in st'.entries <==> x in st.entries
  {
    if Added(env, st, req, now).Ok? {
      var e := NewEntry(env, st, req, now);
      PutMembers(st.entries, e);
      assert e in Put(st.entries, e);
    }
  }

  lemma ProductBounds(a: real, b: real)
    requires 0.0 <= a && 0.0 <= b <= 1.0
    ensures 0.0 <= a * b <= a
  {
  }

  lemma {:induction false} PowBounds(q: real, n: nat)
    requires 0.0 < q <= 1.0
    ensures 0.0 < Pow(q, n) <= 1.0
  {
    if n > 0 {
      PowBounds(q, n - 1);
      ProductBounds(q, Pow(q, n - 1));
      assert q * Pow(q, n - 1) > 0.0;
    }
  }

  lemma {:induction false} SurvivorsMembers(entries: seq<Entry>)
    ensures forall e :: e in Survivors(entries) <==> e in entries && !Evicted(e)
  {
    if entries != [] {
      SurvivorsMembers(entries[1..]);
      assert entries == [entries[0]] + entries[1..];
    }
  }

  lemma {:induction false} SurvivorsDistinct(entries: seq<Entry>)
    requires DistinctIds(entries)
    ensures DistinctIds(Survivors(entries))
  {
    if entries != [] {
      SurvivorsDistinct(entries[1..]);
      SurvivorsMembers(entries[1..]);
      var tail := Survivors(entries[1..]);
      forall i | 0 <= i < |tail| ensures tail[i].traceId != entries[0].traceId {
        assert tail[i] in tail && tail[i] in entries[1..];
      }
    }
  }

  /** A tick keeps the invariant: weights stay in [THETA, 1] and pinned weights stay 1. */
  lemma DecayedKeepsValid(st: Store, now: int)
    requires Valid(st) && Decaying(st.factors)
    ensures Valid(st.(entries := Decayed(st.factors, st.entries, now)))
  {
    var aged := AllAged(st.factors, st.entries, now);
    SurvivorsDistinct(aged);
    SurvivorsMembers(aged);
    forall e | e in Survivors(aged) ensures ValidEntry(st.dim, e) {
      var i :| 0 <= i < |aged| && aged[i] == e;
      var before := st.entries[i];
      assert before in st.entries;
      PowBounds(Factor(st.factors, before.kind), Elapsed(before, now));
      ProductBounds(before.weight, Pow(Factor(st.factors, before.kind), Elapsed(before, now)));
    }
  }
}
