/**
 * The node-local store of the `txn` workload (maelstrom-transactions/main.go):
 * a key/value map, a lock table claimed all-or-nothing in one pass, and the
 * steps of the `txn` handler that build the sorted key list, apply a batch of
 * operations and build the write-only replication request.
 */
module Transactions {
  import opened Wrappers

  /** One operation of a request, `[mode, key, value]`: `value` is the third
      slot, null (None) or a number. */
  datatype Op = Op(mode: string, key: int, value: Option<int>)

  /** The handler reads a write's value with a type assertion, so every "w"
      operation must carry a number. */
  predicate WritesCarryValues(txn: seq<Op>) {
    forall i :: 0 <= i < |txn| && txn[i].mode == "w" ==> txn[i].value.Some?
  }

  predicate IsWriteTo(op: Op, k: int) {
    op.mode == "w" && op.key == k
  }

  // ---------------------------------------------------------------- lock table

  /** The owner of `k`; a missing entry reads as "", Go's zero value, which
      means "unlocked". */
  function OwnerOf(owners: map<int, string>, k: int): string {
    if k in owners then owners[k] else ""
  }

  /** The lock-table entries that set every key of `keys` to `owner`. */
  function Assign(keys: seq<int>, owner: string): map<int, string> {
    map k | k in keys :: owner
  }

  predicate NoDuplicates(keys: seq<int>) {
    forall i, j :: 0 <= i < j < |keys| ==> keys[i] != keys[j]
  }

  /** Whether the claiming pass of Lock stops at index `i`: with keys[..i]
      already claimed for `msgID`, the owner it finds for keys[i] is not "". */
  predicate Blocked(owners: map<int, string>, keys: seq<int>, msgID: string, i: nat)
    requires i < |keys|
  {
    (if keys[i] in keys[..i] then msgID else OwnerOf(owners, keys[i])) != ""
  }

  /** The first index at or after `from` where the claiming pass stops, or
      |keys| when it gets through all of them. */
  function ClaimReach(owners: map<int, string>, keys: seq<int>, msgID: string, from: nat): (n: nat)
    requires from <= |keys|
    ensures from <= n <= |keys|
    ensures forall j :: from <= j < n ==> !Blocked(owners, keys, msgID, j)
    ensures n < |keys| ==> Blocked(owners, keys, msgID, n)
    decreases |keys| - from
  {
    if from == |keys| || Blocked(owners, keys, msgID, from) then from
    else ClaimReach(owners, keys, msgID, from + 1)
  }

  /** How many keys one lock attempt claims before it meets a held key;
      |keys| exactly when the attempt succeeds. */
  function Reach(owners: map<int, string>, keys: seq<int>, msgID: string): nat {
    ClaimReach(owners, keys, msgID, 0)
  }

  /** For a non-empty transaction id (the handler passes the decimal message
      id), an attempt succeeds exactly when every listed key is free and no key
      is listed twice. A key held by the same id still blocks: the test is
      "owner not empty", not "owned by someone else". */
  lemma {:induction false} LockSucceedsIff(owners: map<int, string>, keys: seq<int>, msgID: string)
    requires msgID != ""
    ensures Reach(owners, keys, msgID) == |keys| <==>
            (forall k :: k in keys ==> OwnerOf(owners, k) == "") && NoDuplicates(keys)
  {
    var n := Reach(owners, keys, msgID);
    if n == |keys| {
      forall i, j | 0 <= i < j < |keys| ensures keys[i] != keys[j] {
        assert !Blocked(owners, keys, msgID, j);
        assert keys[..j][i] == keys[i];
      }
      forall k | k in keys ensures OwnerOf(owners, k) == "" {
        var j :| 0 <= j < |keys| && keys[j] == k;
        assert !Blocked(owners, keys, msgID, j);
      }
    } else {
      assert Blocked(owners, keys, msgID, n);
      if keys[n] in keys[..n] {
        var i :| 0 <= i < n && keys[..n][i] == keys[n];
        assert !NoDuplicates(keys);
      } else {
        assert OwnerOf(owners, keys[n]) != "";
      }
    }
  }

  /** Every key a lock attempt claimed was free before the attempt. */
  lemma {:induction false} ClaimedWereFree(owners: map<int, string>, keys: seq<int>, msgID: string, j: nat)
    requires j < Reach(owners, keys, msgID)
    ensures OwnerOf(owners, keys[j]) == ""
    decreases j
  {
    assert !Blocked(owners, keys, msgID, j);
    if keys[j] in keys[..j] {
      var i :| 0 <= i < j && keys[..j][i] == keys[j];
      ClaimedWereFree(owners, keys, msgID, i);
    }
  }

  /** Resetting the keys a failed attempt claimed gives every key the owner it
      had before the attempt: the lock table is logically unchanged. */
  lemma RollbackRestoresOwners(owners: map<int, string>, keys: seq<int>, msgID: string)
    ensures forall k :: OwnerOf(owners + Assign(keys[..Reach(owners, keys, msgID)], ""), k) == OwnerOf(owners, k)
  {
    var n := Reach(owners, keys, msgID);
    forall k ensures OwnerOf(owners + Assign(keys[..n], ""), k) == OwnerOf(owners, k) {
      if k in keys[..n] {
        var j :| 0 <= j < n && keys[..n][j] == k;
        ClaimedWereFree(owners, keys, msgID, j);
      }
    }
  }

  /** Setting one more key of the list extends the assigned entries by it. */
  lemma AssignStep(m: map<int, string>, keys: seq<int>, i: nat, owner: string)
    requires i < |keys|
    ensures (m + Assign(keys[..i], owner))[keys[i] := owner] == m + Assign(keys[..i + 1], owner)
  {
    assert keys[..i + 1] == keys[..i] + [keys[i]];
  }

  /** Assigning the same keys twice keeps only the second assignment. */
  lemma AssignOverride(m: map<int, string>, keys: seq<int>, first: string, second: string)
    ensures (m + Assign(keys, first)) + Assign(keys, second) == m + Assign(keys, second)
  {
  }

  /** The node's store: the key/value map and the lock table. */
  class Storage {
    var data: map<int, int>
    var owners: map<int, string>

    constructor ()
      ensures data == map[] && owners == map[]
    {
      data := map[];
      owners := map[];
    }

    /** One lock attempt: claims `keys` in order for `msgID`; at the first key
        whose owner is not empty it resets the keys claimed so far and fails. */
    method Lock(keys: seq<int>, msgID: string) returns (ok: bool)
      modifies this
      ensures data == old(data)
      ensures ok <==> Reach(old(owners), keys, msgID) == |keys|
      ensures ok ==> owners == old(owners) + Assign(keys, msgID)
      ensures !ok ==> owners == old(owners) + Assign(keys[..Reach(old(owners), keys, msgID)], "")
      ensures !ok ==> forall k :: OwnerOf(owners, k) == OwnerOf(old(owners), k)
    {
      var i := 0;
      while i < |keys|
        invariant i <= |keys|
        invariant data == old(data)
        invariant owners == old(owners) + Assign(keys[..i], msgID)
        invariant forall j :: 0 <= j < i ==> !Blocked(old(owners), keys, msgID, j)
      {
        var k := keys[i];
        if OwnerOf(owners, k) != "" {
          assert Blocked(old(owners), keys, msgID, i);
          UnlockUnsafe(keys[..i]);
          AssignOverride(old(owners), keys[..i], msgID, "");
          RollbackRestoresOwners(old(owners), keys, msgID);
          return false;
        }
        AssignStep(old(owners), keys, i, msgID);
        owners := owners[k := msgID];
        i := i + 1;
      }
      assert keys[..i] == keys;
      return true;
    }

    /** Sets the owner of every listed key to "". */
    method UnlockUnsafe(keys: seq<int>)
      modifies this`owners
      ensures owners == old(owners) + Assign(keys, "")
    {
      for i := 0 to |keys|
        invariant owners == old(owners) + Assign(keys[..i], "")
      {
        AssignStep(old(owners), keys, i, "");
        owners := owners[keys[i] := ""];
      }
      assert keys[..|keys|] == keys;
    }

    /** Releases the listed keys; no other owner and no value changes. */
    method Unlock(keys: seq<int>)
      modifies this
      ensures owners == old(owners) + Assign(keys, "")
      ensures data == old(data)
    {
      UnlockUnsafe(keys);
    }

    /** The value of `key` and whether it was ever written; (0, false) when
        absent. */
    method Read(key: int) returns (v: int, ok: bool)
      ensures ok <==> key in data
      ensures ok ==> v == data[key]
      ensures !ok ==> v == 0
    {
      ok := key in data;
      v := if ok then data[key] else 0;
    }

    /** Stores `value` under `key`, leaving every other key and the lock table
        as they were. */
    method Write(key: int, value: int)
      modifies this
      ensures data == old(data)[key := value]
      ensures owners == old(owners)
    {
      data := data[key := value];
    }
  }

  // ------------------------------------------------------------ the key list

  /** The keys a batch touches. */
  function KeysOf(txn: seq<Op>): set<int> {
    set i | 0 <= i < |txn| :: txn[i].key
  }

  predicate StrictlyAscending(s: seq<int>) {
    forall i, j :: 0 <= i < j < |s| ==> s[i] < s[j]
  }

  /** A non-empty set has an element (stated so that `:|` can pick one). */
  lemma NonEmptyHasElement(s: set<int>)
    requires s != {}
    ensures exists x :: x in s
  {
    if forall x :: x !in s {
      assert false;
    }
  }

  /** `m` is the least element of `s`. */
  predicate IsLeast(m: int, s: set<int>) {
    m in s && forall x :: x in s ==> m <= x
  }

  lemma {:induction false} LeastOf(s: set<int>) returns (m: int)
    requires s != {}
    ensures IsLeast(m, s)
    decreases s
  {
    NonEmptyHasElement(s);
    var y :| y in s;
    if s == {y} {
      m := y;
    } else {
      var m' := LeastOf(s - {y});
      m := if y < m' then y else m';
      assert forall x :: x in s ==> x == y || x in s - {y};
    }
  }

  lemma LeastExists(s: set<int>)
    requires s != {}
    ensures exists m :: IsLeast(m, s)
  {
    var m := LeastOf(s);
  }

  /** The elements of a set of keys in ascending order, each once: the key
      list `slices.Sort` makes of a map's keys. */
  function SortedElements(s: set<int>): (r: seq<int>)
    ensures StrictlyAscending(r)
    ensures forall k :: k in r <==> k in s
    decreases s
  {
    if s == {} then []
    else
      LeastExists(s);
      var m :| IsLeast(m, s);
      [m] + SortedElements(s - {m})
  }

  /** The key list the handler locks: every key the batch touches, once,
      ascending. */
  method LockKeys(txn: seq<Op>) returns (keys: seq<int>)
    ensures StrictlyAscending(keys)
    ensures forall k :: k in keys <==> exists i :: 0 <= i < |txn| && txn[i].key == k
  {
    var keysSet: set<int> := {};
    for i := 0 to |txn|
      invariant keysSet == set j | 0 <= j < i :: txn[j].key
    {
      keysSet := keysSet + {txn[i].key};
    }
    keys := SortedElements(keysSet);
  }

  // ------------------------------------------------------- batch application

  /** What the handler's loop carries: the response so far, the local map and
      the replication map. */
  datatype Outcome = Outcome(resp: seq<Op>, data: map<int, int>, replication: map<int, int>)

  /** The response entry for `op` while the map holds `data`: a read of a
      present key gets the value in its third slot; every other operation is
      echoed as it came. */
  function Answer(data: map<int, int>, op: Op): Op {
    if op.mode == "r" && op.key in data then op.(value := Some(data[op.key])) else op
  }

  /** One turn of the handler's loop. */
  function ApplyOp(o: Outcome, op: Op): Outcome
    requires op.mode == "w" ==> op.value.Some?
  {
    if op.mode == "w" then
      Outcome(o.resp + [op], o.data[op.key := op.value.value], o.replication[op.key := op.value.value])
    else
      o.(resp := o.resp + [Answer(o.data, op)])
  }

  /** The batch applied in request order against `data`. */
  function ApplyBatch(data: map<int, int>, txn: seq<Op>): (o: Outcome)
    requires WritesCarryValues(txn)
    ensures |o.resp| == |txn|
    decreases |txn|
  {
    if txn == [] then Outcome([], data, map[])
    else ApplyOp(ApplyBatch(data, txn[..|txn| - 1]), txn[|txn| - 1])
  }

  /** Entry i of the response answers operation i against the map as the
      first i operations left it. */
  lemma {:induction false} ApplyBatchAnswers(data: map<int, int>, txn: seq<Op>)
    requires WritesCarryValues(txn)
    ensures forall i :: 0 <= i < |txn| ==>
              ApplyBatch(data, txn).resp[i] == Answer(ApplyBatch(data, txn[..i]).data, txn[i])
    decreases |txn|
  {
    if txn != [] {
      var init := txn[..|txn| - 1];
      var last := txn[|txn| - 1];
      ApplyBatchAnswers(data, init);
      var o := ApplyBatch(data, init);
      var resp := ApplyBatch(data, txn).resp;
      assert resp == o.resp + [Answer(o.data, last)];
      forall i | 0 <= i < |txn|
        ensures resp[i] == Answer(ApplyBatch(data, txn[..i]).data, txn[i])
      {
        if i < |init| {
          assert resp[i] == o.resp[i];
          assert txn[..i] == init[..i];
          assert txn[i] == init[i];
        } else {
          assert txn[..i] == init;
        }
      }
    }
  }

  /** The map ends as the old map overlaid with the replication map: every
      written key holds its replicated value, every other key is unchanged. */
  lemma {:induction false} ApplyBatchData(data: map<int, int>, txn: seq<Op>)
    requires WritesCarryValues(txn)
    ensures ApplyBatch(data, txn).data == data + ApplyBatch(data, txn).replication
    decreases |txn|
  {
    if txn != [] {
      ApplyBatchData(data, txn[..|txn| - 1]);
    }
  }

  /** The response keeps the request's modes and keys, and echoes every
      operation other than a read unchanged. */
  lemma ResponseEchoesRequest(data: map<int, int>, txn: seq<Op>)
    requires WritesCarryValues(txn)
    ensures forall i :: 0 <= i < |txn| ==>
              ApplyBatch(data, txn).resp[i].mode == txn[i].mode && ApplyBatch(data, txn).resp[i].key == txn[i].key
    ensures forall i :: 0 <= i < |txn| && txn[i].mode != "r" ==> ApplyBatch(data, txn).resp[i] == txn[i]
  {
    ApplyBatchAnswers(data, txn);
  }

  /** Some operation of the batch writes `k`. */
  predicate WrittenIn(txn: seq<Op>, k: int) {
    exists i :: 0 <= i < |txn| && IsWriteTo(txn[i], k)
  }

  /** Operation j is the batch's last write to `k`. */
  predicate LastWriteAt(txn: seq<Op>, j: int, k: int) {
    0 <= j < |txn| && IsWriteTo(txn[j], k) && forall i :: j < i < |txn| ==> !IsWriteTo(txn[i], k)
  }

  /** The replication map holds exactly the keys the batch writes, each with
      the last value written to it. */
  lemma {:induction false} ReplicationIsLastWrite(data: map<int, int>, txn: seq<Op>)
    requires WritesCarryValues(txn)
    ensures forall k :: k in ApplyBatch(data, txn).replication <==> WrittenIn(txn, k)
    ensures forall j, k :: LastWriteAt(txn, j, k) ==>
              k in ApplyBatch(data, txn).replication && ApplyBatch(data, txn).replication[k] == txn[j].value.value
    decreases |txn|
  {
    if txn != [] {
      var init := txn[..|txn| - 1];
      var last := txn[|txn| - 1];
      ReplicationIsLastWrite(data, init);
      forall k ensures k in ApplyBatch(data, txn).replication <==> WrittenIn(txn, k) {
        if WrittenIn(init, k) {
          var i :| 0 <= i < |init| && IsWriteTo(init[i], k);
          assert IsWriteTo(txn[i], k);
        }
        if WrittenIn(txn, k) && !IsWriteTo(last, k) {
          var i :| 0 <= i < |txn| && IsWriteTo(txn[i], k);
          assert IsWriteTo(init[i], k);
        }
      }
      forall j, k | LastWriteAt(txn, j, k)
        ensures k in ApplyBatch(data, txn).replication && ApplyBatch(data, txn).replication[k] == txn[j].value.value
      {
        if j < |init| {
          assert !IsWriteTo(last, k);
          assert LastWriteAt(init, j, k);
        }
      }
    }
  }

  /** A read after a write to the same key, with no write to that key between
      them, answers with that write's value. */
  lemma ReadSeesLatestWrite(data: map<int, int>, txn: seq<Op>, j: nat, i: nat)
    requires WritesCarryValues(txn)
    requires j < i < |txn| && txn[i].mode == "r" && IsWriteTo(txn[j], txn[i].key)
    requires forall m :: j < m < i ==> !IsWriteTo(txn[m], txn[i].key)
    ensures ApplyBatch(data, txn).resp[i] == txn[i].(value := Some(txn[j].value.value))
  {
    var pre := txn[..i];
    ApplyBatchAnswers(data, txn);
    ApplyBatchData(data, pre);
    ReplicationIsLastWrite(data, pre);
    assert LastWriteAt(pre, j, txn[i].key);
  }

  /** A read of a key no earlier operation writes answers from the map as
      the batch found it: the stored value, or the request's own slot when the
      key was never written. */
  lemma ReadOfUnwrittenKey(data: map<int, int>, txn: seq<Op>, i: nat)
    requires WritesCarryValues(txn)
    requires i < |txn| && txn[i].mode == "r"
    requires forall m :: 0 <= m < i ==> !IsWriteTo(txn[m], txn[i].key)
    ensures ApplyBatch(data, txn).resp[i] ==
            if txn[i].key in data then txn[i].(value := Some(data[txn[i].key])) else txn[i]
  {
    var pre := txn[..i];
    ApplyBatchAnswers(data, txn);
    ApplyBatchData(data, pre);
    ReplicationIsLastWrite(data, pre);
    assert forall m :: 0 <= m < |pre| ==> pre[m] == txn[m];
    assert !WrittenIn(pre, txn[i].key);
  }

  /** The handler's loop over the batch, against the node's store. */
  method ApplyTxn(s: Storage, txn: seq<Op>) returns (resp: seq<Op>, replication: map<int, int>)
    requires WritesCarryValues(txn)
    modifies s
    ensures resp == ApplyBatch(old(s.data), txn).resp
    ensures replication == ApplyBatch(old(s.data), txn).replication
    ensures s.data == ApplyBatch(old(s.data), txn).data
    ensures s.owners == old(s.owners)
  {
    resp := txn;
    replication := map[];
    for i := 0 to |txn|
      invariant |resp| == |txn|
      invariant resp[..i] == ApplyBatch(old(s.data), txn[..i]).resp
      invariant resp[i..] == txn[i..]
      invariant s.data == ApplyBatch(old(s.data), txn[..i]).data
      invariant replication == ApplyBatch(old(s.data), txn[..i]).replication
      invariant s.owners == old(s.owners)
    {
      var t := txn[i];
      ghost var before := ApplyBatch(old(s.data), txn[..i]);
      assert txn[..i + 1][..i] == txn[..i];
      assert ApplyBatch(old(s.data), txn[..i + 1]) == ApplyOp(before, t);
      assert resp[i] == t;
      if t.mode == "r" {
        var v, ok := s.Read(t.key);
        if ok {
          resp := resp[i := t.(value := Some(v))];
        }
      } else if t.mode == "w" {
        var value := t.value.value;
        s.Write(t.key, value);
        replication := replication[t.key := value];
      }
      assert resp[i] == Answer(before.data, t);
      assert resp[..i + 1] == before.resp + [Answer(before.data, t)];
      assert resp[i + 1..] == txn[i + 1..];
    }
    assert txn[..|txn|] == txn;
  }

  // ------------------------------------------------------------ replication

  /** `req` is a write-only batch with one "w" operation for each key of
      `keys`, carrying that key's value in `replication`. */
  predicate WritesFor(req: seq<Op>, replication: map<int, int>, keys: set<int>) {
    && keys <= replication.Keys
    && |req| == |keys|
    && (forall i :: 0 <= i < |req| ==>
          req[i].mode == "w" && req[i].key in keys && req[i].value == Some(replication[req[i].key]))
    && (forall k :: k in keys ==> exists i :: 0 <= i < |req| && req[i].key == k)
    && (forall i, j :: 0 <= i < j < |req| ==> req[i].key != req[j].key)
  }

  /** `req` is the replication request for `replication`: one "w" operation
      per replicated key, with its value, and nothing else. */
  predicate ReplicationBatchOf(req: seq<Op>, replication: map<int, int>) {
    WritesFor(req, replication, replication.Keys)
  }

  /** Appending the write for one more key keeps the batch well formed. */
  lemma WritesForStep(req: seq<Op>, replication: map<int, int>, keys: set<int>, k: int)
    requires WritesFor(req, replication, keys)
    requires k in replication && k !in keys
    ensures WritesFor(req + [Op("w", k, Some(replication[k]))], replication, keys + {k})
  {
    var req' := req + [Op("w", k, Some(replication[k]))];
    forall k' | k' in keys + {k}
      ensures exists i :: 0 <= i < |req'| && req'[i].key == k'
    {
      if k' == k {
        assert req'[|req|].key == k';
      } else {
        var i :| 0 <= i < |req| && req[i].key == k';
        assert req'[i].key == k';
      }
    }
  }

  /** The request sent to peers, built by ranging over the replication map
      (in no particular order). */
  method ReplicationRequest(replication: map<int, int>) returns (req: seq<Op>)
    ensures ReplicationBatchOf(req, replication)
  {
    req := [];
    var pending := replication.Keys;
    while pending != {}
      invariant pending <= replication.Keys
      invariant WritesFor(req, replication, replication.Keys - pending)
      decreases pending
    {
      NonEmptyHasElement(pending);
      var k :| k in pending;
      WritesForStep(req, replication, replication.Keys - pending, k);
      assert replication.Keys - (pending - {k}) == (replication.Keys - pending) + {k};
      req := req + [Op("w", k, Some(replication[k]))];
      pending := pending - {k};
    }
    assert replication.Keys - pending == replication.Keys;
  }

  // ---------------------------------------------------------------- handler

  /** The `txn` handler with one lock attempt. When the attempt fails the
      lock table is logically as before and nothing is applied; when it
      succeeds the batch is applied, every key is released, and the
      replication request carries the batch's last write to each key. */
  method HandleTxn(s: Storage, txn: seq<Op>, msgID: string)
    returns (keys: seq<int>, locked: bool, resp: seq<Op>, req: seq<Op>)
    requires WritesCarryValues(txn)
    modifies s
    ensures StrictlyAscending(keys)
    ensures forall k :: k in keys <==> exists i :: 0 <= i < |txn| && txn[i].key == k
    ensures locked <==> Reach(old(s.owners), keys, msgID) == |keys|
    ensures msgID != "" ==> (locked <==> forall k :: k in keys ==> OwnerOf(old(s.owners), k) == "")
    ensures !locked ==> s.data == old(s.data)
    ensures !locked ==> forall k :: OwnerOf(s.owners, k) == OwnerOf(old(s.owners), k)
    ensures locked ==> resp == ApplyBatch(old(s.data), txn).resp
    ensures locked ==> s.data == ApplyBatch(old(s.data), txn).data
    ensures locked ==> ReplicationBatchOf(req, ApplyBatch(old(s.data), txn).replication)
    ensures locked ==> s.owners == old(s.owners) + Assign(keys, "")
  {
    keys := LockKeys(txn);
    if msgID != "" {
      LockSucceedsIff(s.owners, keys, msgID);
    }
    locked := s.Lock(keys, msgID);
    if !locked {
      resp, req := [], [];
      return;
    }
    var replication;
    resp, replication := ApplyTxn(s, txn);
    s.Unlock(keys);
    AssignOverride(old(s.owners), keys, msgID, "");
    req := ReplicationRequest(replication);
  }
}
