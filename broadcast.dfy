/**
 * The message list of the `broadcast` workload
 * (maelstrom-broadcast/storage.go): an append-only list of messages and a
 * read that hands out a copy.
 */
module Broadcast {

  class MessageStorage {
    var messages: seq<int>

    /** The zero value `MessageStorage{}`: no messages. */
    constructor ()
      ensures messages == []
    {
      messages := [];
    }

    /** Appends `msg` after the messages already stored. */
    method Store(msg: int)
      modifies this
      ensures messages == old(messages) + [msg]
    {
      messages := messages + [msg];
    }

    /** A new buffer holding every stored message in insertion order; the
        list itself is left as it was. */
    method Read() returns (res: array<int>)
      ensures fresh(res)
      ensures res[..] == messages
    {
      res := new int[|messages|];
      for i := 0 to |messages|
        invariant res[..i] == messages[..i]
      {
        res[i] := messages[i];
      }
    }
  }

  /** A buffer returned by Read is the caller's own: a later Store changes the
      list but not the buffer. */
  method ReadThenStore(s: MessageStorage, msg: int) returns (snapshot: array<int>)
    modifies s
    ensures snapshot[..] == old(s.messages)
    ensures s.messages == old(s.messages) + [msg]
  {
    snapshot := s.Read();
    s.Store(msg);
  }
}
