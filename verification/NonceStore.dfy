/** Replay protection: the in-memory dictionary and the SQL table are two forms of one map from key to expiry. */
module NonceStores {
  import opened Prelude

  datatype Key = Key(chainId: int, contract: string, signer: string, nonce: string)

  type Rows = map<Key, int>

  datatype NonceError = DomainMissing

  /** Both stores key by the EIP-712 domain, the signer and the nonce, lower-cased; a missing domain is refused. */
  function Resolve(signer: string, nonce: string, chainId: Option<int>, contract: Option<string>): Result<Key, NonceError> {
    if chainId.None? || contract.None? then Err(DomainMissing)
    else Ok(Key(chainId.value, Lower(contract.value), Lower(signer), Lower(nonce)))
  }

  /** `setdefault`: the first write wins. */
  function Inserted(rows: Rows, key: Key, expiresAt: int): Rows {
    if key in rows then rows else rows[key := expiresAt]
  }

  function Stale(rows: Rows, now: int): set<Key> {
    set k | k in rows && rows[k] <= now
  }

  function Purged(rows: Rows, now: int): Rows {
    map k | k in rows && rows[k] > now :: rows[k]
  }

  class InMemoryNonceStore {
    var rows: Rows

    constructor ()
      ensures rows == map[]
    {
      rows := map[];
    }

    method Has(signer: string, nonce: string, chainId: Option<int>, contract: Option<string>)
      returns (r: Result<bool, NonceError>)
      ensures match Resolve(signer, nonce, chainId, contract)
              case Ok(key) => r == Ok(key in rows)
              case Err(e) => r == Err(e)
      ensures r.Err? <==> chainId.None? || contract.None?
      ensures r.Ok? ==> (r.value <==> Key(chainId.value, Lower(contract.value), Lower(signer), Lower(nonce)) in rows)
    {
      match Resolve(signer, nonce, chainId, contract) {
        case Ok(key) => return Ok(key in rows);
        case Err(e) => return Err(e);
      }
    }

    method Add(signer: string, nonce: string, expiresAt: int, chainId: Option<int>, contract: Option<string>)
      returns (r: Result<(), NonceError>)
      modifies this
      ensures match Resolve(signer, nonce, chainId, contract)
              case Ok(key) => r == Ok(()) && rows == Inserted(old(rows), key, expiresAt)
              case Err(e) => r == Err(e) && rows == old(rows)
      ensures r.Err? <==> chainId.None? || contract.None?
      ensures r.Ok? ==>
                var key := Key(chainId.value, Lower(contract.value), Lower(signer), Lower(nonce));
                rows == if key in old(rows) then old(rows) else old(rows)[key := expiresAt]
    {
      match Resolve(signer, nonce, chainId, contract) {
        case Ok(key) =>
          if key !in rows {
            rows := rows[key := expiresAt];
          }
          return Ok(());
        case Err(e) => return Err(e);
      }
    }

    /** Collects the stale keys, then deletes them one by one. */
    method PurgeExpired(now: int) returns (purged: nat)
      modifies this
      ensures rows == Purged(old(rows), now) && purged == |Stale(old(rows), now)|
      ensures forall k :: k in rows <==> k in old(rows) && old(rows)[k] > now
      ensures forall k | k in rows :: rows[k] == old(rows)[k]
    {
      var stale := Stale(rows, now);
      var todo := stale;
      while todo != {}
        invariant todo <= stale
        invariant rows == map k | k in old(rows) && k !in stale - todo :: old(rows)[k]
        decreases |todo|
      {
        var k :| k in todo;
        rows := rows - {k};
        todo := todo - {k};
      }
      assert rows == map k | k in old(rows) && k !in stale :: old(rows)[k];
      assert forall k :: k in rows <==> k in Purged(old(rows), now);
      return |stale|;
    }
  }

  // ---- The SQL table ----

  datatype Row = Row(key: Key, expiresAt: int)

  /** PRIMARY KEY. */
  ghost predicate Keyed(table: seq<Row>) {
    forall i, j | 0 <= i < j < |table| :: table[i].key != table[j].key
  }

  predicate Selects(table: seq<Row>, key: Key) {
    exists r | r in table :: r.key == key
  }

  /** INSERT OR IGNORE. */
  function InsertOrIgnore(table: seq<Row>, key: Key, expiresAt: int): seq<Row> {
    if Selects(table, key) then table else table + [Row(key, expiresAt)]
  }

  /** DELETE ... WHERE expires_at <= now. */
  function DeleteExpired(table: seq<Row>, now: int): seq<Row> {
    Filter(table, (r: Row) => r.expiresAt > now)
  }

  /** The map a table stands for. */
  function AsMap(table: seq<Row>): Rows {
    if table == [] then map[] else AsMap(table[1..])[table[0].key := table[0].expiresAt]
  }

  lemma {:induction false} AsMapMembers(table: seq<Row>)
    requires Keyed(table)
    ensures forall k :: k in AsMap(table) <==> Selects(table, k)
    ensures forall r | r in table :: r.key in AsMap(table) && AsMap(table)[r.key] == r.expiresAt
    ensures |AsMap(table)| == |table|
  {
    if table != [] {
      AsMapMembers(table[1..]);
      assert table == [table[0]] + table[1..];
      assert table[0].key !in AsMap(table[1..]) by {
        forall r | r in table[1..] ensures r.key != table[0].key {
        }
      }
    }
  }

  lemma {:induction false} AsMapSnoc(table: seq<Row>, row: Row)
    requires !Selects(table, row.key)
    ensures AsMap(table + [row]) == AsMap(table)[row.key := row.expiresAt]
  {
    if table != [] {
      assert table[0] in table;
      AsMapSnoc(table[1..], row);
      assert (table + [row])[1..] == table[1..] + [row];
    }
  }

  lemma {:induction false} DeleteMembers(table: seq<Row>, now: int)
    ensures forall r :: r in DeleteExpired(table, now) <==> r in table && r.expiresAt > now
    ensures Keyed(table) ==> Keyed(DeleteExpired(table, now))
    ensures |DeleteExpired(table, now)| <= |table|
  {
    if table != [] {
      DeleteMembers(table[1..], now);
      assert table == [table[0]] + table[1..];
      var rest := DeleteExpired(table[1..], now);
      if Keyed(table) {
        forall j | 0 <= j < |rest| ensures rest[j].key != table[0].key {
          assert rest[j] in rest;
        }
      }
    }
  }

  lemma DeleteIsPurge(table: seq<Row>, now: int)
    requires Keyed(table)
    ensures AsMap(DeleteExpired(table, now)) == Purged(AsMap(table), now)
  {
    AsMapMembers(table);
    DeleteMembers(table, now);
    var kept := DeleteExpired(table, now);
    AsMapMembers(kept);
    forall k ensures k in AsMap(kept) <==> k in Purged(AsMap(table), now) {
      if k in AsMap(kept) {
        var r :| r in kept && r.key == k;
        assert r in table;
      }
      if k in Purged(AsMap(table), now) {
        var r :| r in table && r.key == k;
        assert r in kept;
      }
    }
    forall k | k in AsMap(kept) ensures AsMap(kept)[k] == AsMap(table)[k] {
      var r :| r in kept && r.key == k;
      assert r in table;
    }
  }

  lemma InsertIsInserted(table: seq<Row>, key: Key, expiresAt: int)
    requires Keyed(table)
    ensures Keyed(InsertOrIgnore(table, key, expiresAt))
    ensures AsMap(InsertOrIgnore(table, key, expiresAt)) == Inserted(AsMap(table), key, expiresAt)
  {
    AsMapMembers(table);
    if !Selects(table, key) {
      AsMapSnoc(table, Row(key, expiresAt));
      assert forall i | 0 <= i < |table| :: table[i] in table;
    }
  }

  lemma DeleteCount(table: seq<Row>, now: int)
    requires Keyed(table)
    ensures |table| - |DeleteExpired(table, now)| == |Stale(AsMap(table), now)|
  {
    AsMapMembers(table);
    DeleteMembers(table, now);
    AsMapMembers(DeleteExpired(table, now));
    DeleteIsPurge(table, now);
    var m := AsMap(table);
    var stale, kept := Stale(m, now), Purged(m, now).Keys;
    assert m.Keys == stale + kept && stale !! kept;
    assert |m.Keys| == |stale| + |kept|;
  }

  /** Each statement on the table is the corresponding operation on the map, row count included. */
  lemma TableRefinesMap(table: seq<Row>, key: Key, expiresAt: int, now: int)
    requires Keyed(table)
    ensures Selects(table, key) <==> key in AsMap(table)
    ensures Keyed(InsertOrIgnore(table, key, expiresAt))
    ensures AsMap(InsertOrIgnore(table, key, expiresAt)) == Inserted(AsMap(table), key, expiresAt)
    ensures Keyed(DeleteExpired(table, now)) && AsMap(DeleteExpired(table, now)) == Purged(AsMap(table), now)
    ensures |table| - |DeleteExpired(table, now)| == |Stale(AsMap(table), now)|
  {
    AsMapMembers(table);
    InsertIsInserted(table, key, expiresAt);
    DeleteMembers(table, now);
    DeleteIsPurge(table, now);
    DeleteCount(table, now);
  }

  class SqliteNonceStore {
    var table: seq<Row>

    ghost function View(): Rows
      reads this
    {
      AsMap(table)
    }

    constructor ()
      ensures Keyed(table) && View() == map[]
    {
      table := [];
    }

    method Has(signer: string, nonce: string, chainId: Option<int>, contract: Option<string>)
      returns (r: Result<bool, NonceError>)
      requires Keyed(table)
      ensures match Resolve(signer, nonce, chainId, contract)
              case Ok(key) => r == Ok(key in View())
              case Err(e) => r == Err(e)
      ensures r.Err? <==> chainId.None? || contract.None?
      ensures r.Ok? ==> (r.value <==> Key(chainId.value, Lower(contract.value), Lower(signer), Lower(nonce)) in View())
    {
      AsMapMembers(table);
      match Resolve(signer, nonce, chainId, contract) {
        case Ok(key) => return Ok(Selects(table, key));
        case Err(e) => return Err(e);
      }
    }

    method Add(signer: string, nonce: string, expiresAt: int, chainId: Option<int>, contract: Option<string>)
      returns (r: Result<(), NonceError>)
      requires Keyed(table)
      modifies this
      ensures Keyed(table)
      ensures match Resolve(signer, nonce, chainId, contract)
              case Ok(key) => r == Ok(()) && View() == Inserted(old(View()), key, expiresAt)
              case Err(e) => r == Err(e) && View() == old(View())
      ensures r.Err? <==> chainId.None? || contract.None?
      ensures r.Ok? ==>
                var key := Key(chainId.value, Lower(contract.value), Lower(signer), Lower(nonce));
                View() == if key in old(View()) then old(View()) else old(View())[key := expiresAt]
    {
      match Resolve(signer, nonce, chainId, contract) {
        case Ok(key) =>
          TableRefinesMap(table, key, expiresAt, 0);
          table := InsertOrIgnore(table, key, expiresAt);
          return Ok(());
        case Err(e) => return Err(e);
      }
    }

    method PurgeExpired(now: int) returns (purged: nat)
      requires Keyed(table)
      modifies this
      ensures Keyed(table)
      ensures View() == Purged(old(View()), now) && purged == |Stale(old(View()), now)|
      ensures forall k :: k in View() <==> k in old(View()) && old(View())[k] > now
      ensures forall k | k in View() :: View()[k] == old(View())[k]
    {
      TableRefinesMap(table, Key(0, "", "", ""), 0, now);
      DeleteMembers(table, now);
      purged := |table| - |DeleteExpired(table, now)|;
      table := DeleteExpired(table, now);
    }
  }

  // ---- Whole runs ----

  datatype Operation = HasKey(key: Key) | AddKey(key: Key, expiresAt: int) | Purge(now: int)

  datatype Answer = Seen(found: bool) | Done | Count(purged: nat)

  function MapAnswers(rows: Rows, ops: seq<Operation>): seq<Answer>
    decreases |ops|
  {
    if ops == [] then []
    else match ops[0]
      case HasKey(key) => [Seen(key in rows)] + MapAnswers(rows, ops[1..])
      case AddKey(key, e) => [Done] + MapAnswers(Inserted(rows, key, e), ops[1..])
      case Purge(now) => [Count(|Stale(rows, now)|)] + MapAnswers(Purged(rows, now), ops[1..])
  }

  function TableAnswers(table: seq<Row>, ops: seq<Operation>): seq<Answer>
    decreases |ops|
  {
    if ops == [] then []
    else match ops[0]
      case HasKey(key) => [Seen(Selects(table, key))] + TableAnswers(table, ops[1..])
      case AddKey(key, e) => [Done] + TableAnswers(InsertOrIgnore(table, key, e), ops[1..])
      case Purge(now) =>
        var kept := DeleteExpired(table, now);
        [Count(if |kept| <= |table| then |table| - |kept| else 0)] + TableAnswers(kept, ops[1..])
  }

  /** Over any run of operations the two stores answer alike. */
  lemma {:induction false} StoresAnswerAlike(table: seq<Row>, ops: seq<Operation>)
    requires Keyed(table)
    ensures TableAnswers(table, ops) == MapAnswers(AsMap(table), ops)
    decreases |ops|
  {
    if ops != [] {
      match ops[0] {
        case HasKey(key) =>
          TableRefinesMap(table, key, 0, 0);
          StoresAnswerAlike(table, ops[1..]);
        case AddKey(key, e) =>
          TableRefinesMap(table, key, e, 0);
          StoresAnswerAlike(InsertOrIgnore(table, key, e), ops[1..]);
        case Purge(now) =>
          TableRefinesMap(table, Key(0, "", "", ""), 0, now);
          StoresAnswerAlike(DeleteExpired(table, now), ops[1..]);
      }
    }
  }
}
