/** The scrollback plugin (plugins/scrollback.py): every line a server sends
    is kept in a bounded per-connection history, and the `recall` command
    replays the history of the server a client is subscribed to. */
module Scrollback {
  import opened Wrappers
  import opened TextLines
  import Proxy

  /** A `collections.deque` with a `maxlen`; `None` is a deque without
      bound, as `deque(maxlen=None)` makes. */
  datatype Deque = Deque(maxlen: Option<nat>, items: seq<TextLine>)

  predicate Bounded(d: Deque)
  {
    d.maxlen.Some? ==> |d.items| <= d.maxlen.value
  }

  function Min(a: nat, b: nat): nat { if a < b then a else b }

  /** `deque.append`: the new item goes to the right end and, when a bounded
      deque is full, the leftmost item falls off. A bounded result is the
      newest `min(maxlen, n + 1)` items of the old ones followed by `x`. */
  function Append(d: Deque, x: TextLine): (r: Deque)
    requires Bounded(d)
    ensures Bounded(r) && r.maxlen == d.maxlen
    ensures d.maxlen.None? ==> r.items == d.items + [x]
    ensures d.maxlen.Some? ==>
      && |r.items| == Min(d.maxlen.value, |d.items| + 1)
      && r.items == (d.items + [x])[|d.items| + 1 - |r.items|..]
  {
    if d.maxlen.None? || |d.items| < d.maxlen.value then Deque(d.maxlen, d.items + [x])
    else if d.maxlen.value == 0 then d
    else Deque(d.maxlen, d.items[1..] + [x])
  }

  /** Appending to a deque with room keeps everything and adds `x` last;
      appending to a full one drops exactly the oldest item. */
  lemma AppendCases(d: Deque, x: TextLine)
    requires Bounded(d) && d.maxlen != Some(0)
    ensures Append(d, x).items[|Append(d, x).items| - 1] == x
    ensures d.maxlen.None? || |d.items| < d.maxlen.value ==> Append(d, x).items == d.items + [x]
    ensures d.maxlen.Some? && |d.items| == d.maxlen.value ==> Append(d, x).items == d.items[1..] + [x]
  {
    var r := Append(d, x);
    assert r.items[|r.items| - 1] == (d.items + [x])[|d.items|];
  }

  /** The error `deque(maxlen=n)` raises for a negative `n`. */
  datatype ScrollbackError = NegativeLength

  /** The module-level `histories` dictionary. */
  class Histories {
    var store: map<Proxy.RemoteServer, Deque>

    constructor ()
      ensures store == map[]
    {
      store := map[];
    }

    predicate AllBounded()
      reads this
    {
      forall c :: c in store ==> Bounded(store[c])
    }
  }

  class MemoryFilter {
    const key: Proxy.RemoteServer
    const histories: Histories

    /** The filter's own history is present. */
    predicate Valid()
      reads this, histories
    {
      key in histories.store && histories.AllBounded()
    }

    /** `MemoryFilter(connection, options)` for a non-negative length: the
        connection gets a fresh empty history, replacing any it had. */
    constructor (connection: Proxy.RemoteServer, length: Option<nat>, histories: Histories)
      requires histories.AllBounded()
      modifies histories
      ensures key == connection && this.histories == histories
      ensures histories.store == old(histories.store)[connection := Deque(length, [])]
      ensures Valid()
    {
      key := connection;
      this.histories := histories;
      histories.store := histories.store[connection := Deque(length, [])];
    }

    /** `from_server`: the line becomes the newest entry of the history and
        is passed on unchanged. */
    method FromServer(line: TextLine) returns (r: TextLine)
      requires Valid()
      modifies histories
      ensures r == line && Valid()
      ensures histories.store == old(histories.store)[key := Append(old(histories.store)[key], line)]
    {
      histories.store := histories.store[key := Append(histories.store[key], line)];
      return line;
    }
  }

  /** Creating a filter: a negative length is refused by the deque before
      the dictionary is touched. */
  method NewMemoryFilter(connection: Proxy.RemoteServer, length: Option<int>, histories: Histories)
    returns (r: Result<MemoryFilter, ScrollbackError>)
    requires histories.AllBounded()
    modifies histories
    ensures r.Failure? <==> length.Some? && length.value < 0
    ensures r.Failure? ==> unchanged(histories)
    ensures r.Success? ==>
      && fresh(r.value) && r.value.key == connection && r.value.histories == histories
      && connection in histories.store && histories.store[connection].items == []
      && histories.store[connection].maxlen == (if length.None? then None else Some(length.value))
      && histories.store == old(histories.store)[connection := histories.store[connection]]
      && r.value.Valid()
  {
    var maxlen: Option<nat> := None;
    if length.Some? {
      if length.value < 0 {
        return Failure(NegativeLength);
      }
      maxlen := Some(length.value);
    }
    var f := new MemoryFilter(connection, maxlen, histories);
    return Success(f);
  }

  /** What the client is sent. */
  datatype Reply = WriteLine(line: TextLine) | TellOk(message: string) | TellErr(message: string)

  const DONE_MESSAGE: string := "Done with scrollback."
  const MISSING_MESSAGE: string := "No scrollback seems to exist for your current world."

  /** The replies `recall` produces for a history: every line, oldest
      first, then one acknowledgement; or one error when there is none. */
  function RecallReplies(history: Option<Deque>): (r: seq<Reply>)
    ensures history.None? ==> r == [TellErr(MISSING_MESSAGE)]
    ensures history.Some? ==> |r| == |history.value.items| + 1 && r[|r| - 1] == TellOk(DONE_MESSAGE)
    ensures history.Some? ==> forall i :: 0 <= i < |history.value.items| ==> r[i] == WriteLine(history.value.items[i])
  {
    match history
    case None => [TellErr(MISSING_MESSAGE)]
    case Some(d) => Lines(d.items) + [TellOk(DONE_MESSAGE)]
  }

  function Lines(items: seq<TextLine>): (r: seq<Reply>)
    ensures |r| == |items| && forall i :: 0 <= i < |items| ==> r[i] == WriteLine(items[i])
  {
    if items == [] then [] else [WriteLine(items[0])] + Lines(items[1..])
  }

  /** The history stored for the server a client is subscribed to, if any. */
  function HistoryOf(histories: Histories, server: Proxy.RemoteServer?): Option<Deque>
    reads histories
  {
    if server != null && server in histories.store then Some(histories.store[server]) else None
  }

  /** `do_recall_scrollback`: drains a copy of the history, so the stored
      history is left as it was. */
  method Recall(histories: Histories, client: Proxy.LocalClient) returns (replies: seq<Reply>)
    ensures replies == RecallReplies(HistoryOf(histories, client.subscribedTo))
  {
    var server := client.subscribedTo;
    if server != null && server in histories.store {
      var history := histories.store[server].items;
      replies := [];
      while history != []
        invariant replies + Lines(history) == Lines(histories.store[server].items)
        decreases |history|
      {
        replies := replies + [WriteLine(history[0])];
        history := history[1..];
      }
      replies := replies + [TellOk(DONE_MESSAGE)];
    } else {
      replies := [TellErr(MISSING_MESSAGE)];
    }
  }
}
