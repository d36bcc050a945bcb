/**
 * The in-memory per-topic append log of the `kafka` workload
 * (maelstrom-kafka/storage.go): a map from topic name to a topic object that
 * holds the topic's entries and its committed offset. Entry i of a topic has
 * offset i.
 */
module TopicLog {

  /** One record of a topic. */
  datatype LogEntry = LogEntry(offset: int, value: int)

  /** The value of one topic: its committed offset and its entries. */
  datatype TopicState = TopicState(commitedOffset: int, data: seq<LogEntry>)

  /** Entry i carries offset i. */
  predicate Contiguous(data: seq<LogEntry>) {
    forall i :: 0 <= i < |data| ==> data[i].offset == i
  }

  predicate AllContiguous(log: map<string, TopicState>) {
    forall key :: key in log ==> Contiguous(log[key].data)
  }

  /** The topic under `key`; a missing topic is the zero topic `&topic{}`
      that `LoadOrStore` would create. */
  function TopicOf(log: map<string, TopicState>, key: string): TopicState {
    if key in log then log[key] else TopicState(0, [])
  }

  /** The entries of a topic; none for an unknown topic. */
  function Entries(log: map<string, TopicState>, key: string): seq<LogEntry> {
    TopicOf(log, key).data
  }

  /** The committed offset of a topic; 0 for an unknown topic. */
  function CommittedOf(log: map<string, TopicState>, key: string): int {
    TopicOf(log, key).commitedOffset
  }

  /** The log after appending `value` to topic `key`, at offset len(data). */
  function Appended(log: map<string, TopicState>, key: string, value: int): map<string, TopicState> {
    var t := TopicOf(log, key);
    log[key := t.(data := t.data + [LogEntry(|t.data|, value)])]
  }

  /** The log after overwriting the committed offset of topic `key`. */
  function CommittedTo(log: map<string, TopicState>, key: string, offset: int): map<string, TopicState> {
    log[key := TopicOf(log, key).(commitedOffset := offset)]
  }

  /** An append adds one entry at the end of its topic, with the topic's old
      length as its offset; it keeps every entry's offset equal to its
      position, leaves the committed offset alone and touches no other topic. */
  lemma AppendFrame(log: map<string, TopicState>, key: string, value: int)
    ensures Entries(Appended(log, key, value), key) == Entries(log, key) + [LogEntry(|Entries(log, key)|, value)]
    ensures forall k :: CommittedOf(Appended(log, key, value), k) == CommittedOf(log, k)
    ensures forall k :: k != key ==> (k in Appended(log, key, value) <==> k in log)
    ensures forall k :: k != key ==> TopicOf(Appended(log, key, value), k) == TopicOf(log, k)
    ensures AllContiguous(log) ==> AllContiguous(Appended(log, key, value))
  {
  }

  /** A commit overwrites the committed offset of its topic, whatever it was,
      creating the topic if absent; it leaves every topic's entries alone and
      touches no other topic. */
  lemma CommitFrame(log: map<string, TopicState>, key: string, offset: int)
    ensures CommittedOf(CommittedTo(log, key, offset), key) == offset
    ensures key in CommittedTo(log, key, offset)
    ensures forall k :: Entries(CommittedTo(log, key, offset), k) == Entries(log, k)
    ensures forall k :: k != key ==> (k in CommittedTo(log, key, offset) <==> k in log)
    ensures forall k :: k != key ==> TopicOf(CommittedTo(log, key, offset), k) == TopicOf(log, k)
    ensures AllContiguous(log) ==> AllContiguous(CommittedTo(log, key, offset))
  {
  }

  /** The log after appending `values` to topic `key`, one at a time, in
      order. */
  function AppendAll(log: map<string, TopicState>, key: string, values: seq<int>): map<string, TopicState>
    decreases |values|
  {
    if values == [] then log
    else Appended(AppendAll(log, key, values[..|values| - 1]), key, values[|values| - 1])
  }

  /** Successive appends to one topic land at consecutive offsets starting at
      the topic's length (0 for a fresh topic), each carrying its value, and
      the entries that were there stay as they were. */
  lemma {:induction false} SuccessiveAppends(log: map<string, TopicState>, key: string, values: seq<int>)
    ensures |Entries(AppendAll(log, key, values), key)| == |Entries(log, key)| + |values|
    ensures forall i :: 0 <= i < |Entries(log, key)| ==>
              Entries(AppendAll(log, key, values), key)[i] == Entries(log, key)[i]
    ensures forall i :: 0 <= i < |values| ==>
              Entries(AppendAll(log, key, values), key)[|Entries(log, key)| + i]
              == LogEntry(|Entries(log, key)| + i, values[i])
    decreases |values|
  {
    if values != [] {
      var init := values[..|values| - 1];
      SuccessiveAppends(log, key, init);
      forall i | 0 <= i < |init| ensures values[i] == init[i] { }
    }
  }

  /** The i-th of successive appends to one topic returns the topic's old
      length plus i: 0, 1, 2, ... on a fresh topic. */
  lemma AppendOffsetsCountUp(log: map<string, TopicState>, key: string, values: seq<int>, i: nat)
    requires i < |values|
    ensures |Entries(AppendAll(log, key, values[..i]), key)| == |Entries(log, key)| + i
  {
    SuccessiveAppends(log, key, values[..i]);
  }

  /** A topic object; `Append` and `Commit` update its fields in place. */
  class Topic {
    var commitedOffset: int
    var data: seq<LogEntry>

    /** The zero topic `&topic{}`. */
    constructor ()
      ensures commitedOffset == 0 && data == []
    {
      commitedOffset := 0;
      data := [];
    }
  }

  /** The storage: topic name to topic object. */
  class TopicStorage {
    var topics: map<string, Topic>

    /** Distinct names hold distinct topic objects, and every topic keeps
        entry i at offset i. */
    ghost predicate Valid()
      reads this, topics.Values
    {
      && (forall k1, k2 :: k1 in topics && k2 in topics && k1 != k2 ==> topics[k1] != topics[k2])
      && (forall k :: k in topics ==> Contiguous(topics[k].data))
    }

    /** The storage as a value. */
    ghost function View(): map<string, TopicState>
      reads this, topics.Values
    {
      map k | k in topics :: TopicState(topics[k].commitedOffset, topics[k].data)
    }

    /** The zero-value storage: no topics. */
    constructor ()
      ensures Valid() && View() == map[]
      ensures fresh(topics.Values)
    {
      topics := map[];
    }

    /** The topic under `key`, storing a fresh zero topic when there is
        none. */
    method LoadOrStore(key: string) returns (t: Topic)
      requires Valid()
      modifies this
      ensures Valid()
      ensures key in topics && topics[key] == t
      ensures old(key in topics) ==> topics == old(topics)
      ensures old(key !in topics) ==>
                fresh(t) && topics == old(topics)[key := t] && t.commitedOffset == 0 && t.data == []
      ensures View() == old(View())[key := TopicOf(old(View()), key)]
    {
      if key in topics {
        t := topics[key];
      } else {
        t := new Topic();
        topics := topics[key := t];
      }
    }

    /** Appends `value` to topic `key` at offset len(data) and returns that
        offset. */
    method Append(key: string, value: int) returns (offset: int)
      requires Valid()
      modifies this, topics.Values
      ensures Valid() && fresh(topics.Values - old(topics.Values))
      ensures offset == |Entries(old(View()), key)|
      ensures View() == Appended(old(View()), key, value)
    {
      var t := LoadOrStore(key);
      ghost var mid := View();
      t.data := t.data + [LogEntry(|t.data|, value)];
      offset := |t.data| - 1;
      forall k | k in topics
        ensures View()[k] == Appended(old(View()), key, value)[k]
      {
        if k != key {
          assert topics[k] != t;
          assert View()[k] == mid[k];
        }
      }
      assert View() == Appended(old(View()), key, value);
    }

    /** The entries of topic `key` from `offset` on, in offset order; nothing
        for an unknown topic or an offset past the end. On a known topic a
        negative offset indexes out of range, even when the topic is empty. */
    method Poll(key: string, offset: int) returns (out: seq<LogEntry>)
      requires Valid()
      requires key in View() ==> offset >= 0
      ensures |out| == if 0 <= offset < |Entries(View(), key)| then |Entries(View(), key)| - offset else 0
      ensures forall j :: 0 <= j < |out| ==> out[j] == Entries(View(), key)[offset + j]
      ensures forall j :: 0 <= j < |out| ==> out[j].offset == offset + j
    {
      if key !in topics {
        assert key !in View();
        return [];
      }
      var t := topics[key];
      assert Entries(View(), key) == t.data;
      out := [];
      var i := offset;
      while i < |t.data|
        invariant 0 <= offset <= i
        invariant i == offset || i <= |t.data|
        invariant |out| == i - offset
        invariant forall j :: 0 <= j < |out| ==> out[j] == t.data[offset + j]
      {
        out := out + [t.data[i]];
        i := i + 1;
      }
    }

    /** Overwrites the committed offset of topic `key`, creating the topic
        when there is none. */
    method Commit(key: string, offset: int)
      requires Valid()
      modifies this, topics.Values
      ensures Valid() && fresh(topics.Values - old(topics.Values))
      ensures View() == CommittedTo(old(View()), key, offset)
    {
      var t := LoadOrStore(key);
      ghost var mid := View();
      t.commitedOffset := offset;
      forall k | k in topics
        ensures View()[k] == CommittedTo(old(View()), key, offset)[k]
      {
        if k != key {
          assert topics[k] != t;
          assert View()[k] == mid[k];
        }
      }
      assert View() == CommittedTo(old(View()), key, offset);
    }

    /** The committed offset of topic `key`; 0 for an unknown topic. */
    method GetCommitedOffset(key: string) returns (offset: int)
      requires Valid()
      ensures offset == CommittedOf(View(), key)
    {
      if key !in topics {
        return 0;
      }
      var t := topics[key];
      offset := t.commitedOffset;
    }
  }
}
