/**
 * The in-memory key/value double of maelstrom-kafka/storage_test.go, and the
 * behaviour the file's two tests expect of the topic log, replayed against
 * the in-memory log of maelstrom-kafka/storage.go.
 */
module StorageTest {
  import opened Wrappers
  import opened TopicLog

  /** The error codes the double returns. */
  datatype RpcError = KeyDoesNotExist | PreconditionFailed

  /** A key/value store held in one map. */
  class InMemoryKV {
    var stg: map<string, int>

    constructor ()
      ensures stg == map[]
    {
      stg := map[];
    }

    /** The value under `key`, or 0 and KeyDoesNotExist when there is none. */
    method ReadInt(key: string) returns (value: int, err: Option<RpcError>)
      ensures key in stg ==> value == stg[key] && err == None
      ensures key !in stg ==> value == 0 && err == Some(KeyDoesNotExist)
    {
      if key in stg {
        return stg[key], None;
      }
      return 0, Some(KeyDoesNotExist);
    }

    /** Stores `value` under `key` unconditionally. */
    method Write(key: string, value: int)
      modifies this
      ensures stg == old(stg)[key := value]
    {
      stg := stg[key := value];
    }

    /** Sets `key` to `to` when it holds `from`, or when it is absent and
        `createIfNotExists` is set (then `from` is not looked at); otherwise
        fails, changing nothing. */
    method CompareAndSwap(key: string, from: int, to: int, createIfNotExists: bool) returns (err: Option<RpcError>)
      modifies this
      ensures key !in old(stg) && !createIfNotExists ==> err == Some(KeyDoesNotExist) && stg == old(stg)
      ensures key in old(stg) && old(stg)[key] != from ==> err == Some(PreconditionFailed) && stg == old(stg)
      ensures (key in old(stg) ==> old(stg)[key] == from) && (key in old(stg) || createIfNotExists) ==>
                err == None && stg == old(stg)[key := to]
    {
      var present := key in stg;
      if !present && !createIfNotExists {
        return Some(KeyDoesNotExist);
      }
      if present && stg[key] != from {
        return Some(PreconditionFailed);
      }
      stg := stg[key := to];
      return None;
    }
  }

  /** The double's outcomes in turn on a fresh store: a swap on a missing key
      without create fails with KeyDoesNotExist and creates nothing; with
      create it stores `to` whatever `from` says; a swap from the wrong value
      fails with PreconditionFailed and keeps the value; a swap from the right
      value replaces it; a write then replaces it unconditionally. */
  method CompareAndSwapOutcomes(key: string, v: int, w: int, u: int)
    returns (e1: Option<RpcError>, r1: Option<RpcError>, e2: Option<RpcError>, e3: Option<RpcError>,
             x3: int, e4: Option<RpcError>, x4: int, x5: int)
    requires v != w
    ensures e1 == Some(KeyDoesNotExist) && r1 == Some(KeyDoesNotExist)
    ensures e2 == None
    ensures e3 == Some(PreconditionFailed) && x3 == v
    ensures e4 == None && x4 == w
    ensures x5 == u
  {
    var kv := new InMemoryKV();
    e1 := kv.CompareAndSwap(key, w, v, false);
    var x1;
    x1, r1 := kv.ReadInt(key);
    e2 := kv.CompareAndSwap(key, w, v, true);
    e3 := kv.CompareAndSwap(key, w, w, false);
    var ignored;
    x3, ignored := kv.ReadInt(key);
    e4 := kv.CompareAndSwap(key, v, w, false);
    x4, ignored := kv.ReadInt(key);
    kv.Write(key, u);
    x5, ignored := kv.ReadInt(key);
  }

  /** TestStorageAppendPoll against the in-memory log: two appends to one
      topic return 0 and 1, polling from the first returns both entries in
      order, and a second topic's first append starts again at offset 0. */
  method AppendPollScenario()
    returns (id1: int, id2: int, poll1: seq<LogEntry>, id3: int, poll2: seq<LogEntry>)
    ensures id1 < id2
    ensures id1 == 0 && id2 == 1
    ensures poll1 == [LogEntry(0, 123), LogEntry(1, 321)]
    ensures id3 == 0
    ensures poll2 == [LogEntry(0, 1234)]
  {
    var stg := new TopicStorage();
    id1 := stg.Append("k1", 123);
    id2 := stg.Append("k1", 321);
    poll1 := stg.Poll("k1", id1);
    id3 := stg.Append("k2", 1234);
    poll2 := stg.Poll("k2", id3);
  }

  /** TestStorageCommits against the in-memory log: committed offsets read
      back per topic, for a topic with entries and for one never appended
      to. */
  method CommitsScenario() returns (offset1: int, offset2: int)
    ensures offset1 == 1234
    ensures offset2 == 1
  {
    var stg := new TopicStorage();
    var ignored := stg.Append("k1", 123);
    stg.Commit("k1", 1234);
    stg.Commit("k2", 1);
    offset1 := stg.GetCommitedOffset("k1");
    offset2 := stg.GetCommitedOffset("k2");
  }
}
