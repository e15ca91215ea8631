/** The lazy receipt reader: it visits every log in order, also in failed receipts. */
module ReceiptReader {
  import opened Prelude
  import opened Rlp
  import opened Volume
  import opened Receipts
  import BigEndian

  datatype ReceiptError<+E> =
    | EmptyReceipt | UnsupportedEnvelope | Malformed | RlpFailed(rlp: RlpError)
    | LogCountOverflow | VisitFailed(error: E)

  /** The visitor's state after the logs, in order; the first failure ends it. */
  function FoldLogs<S, E>(visit: (S, bool, Log) -> Result<S, E>, init: S, success: bool, logs: seq<Log>): Result<S, E> {
    if logs == [] then Ok(init)
    else
      var state :- FoldLogs(visit, init, success, logs[..|logs| - 1]);
      visit(state, success, logs[|logs| - 1])
  }

  function StatsOf(r: Receipt): Stats {
    Stats(r.envelope, r.success, r.gas, |r.logs|)
  }

  /** How a visit of an encoded receipt must end. */
  ghost predicate Visited<S, E>(
    decoded: Option<Receipt>, visit: (S, bool, Log) -> Result<S, E>, init: S,
    r: Result<(Stats, S), ReceiptError<E>>)
  {
    match decoded
    case None => r.Err?
    case Some(receipt) =>
      match FoldLogs(visit, init, receipt.success, receipt.logs)
      case Ok(state) => r == Ok((StatsOf(receipt), state))
      case Err(e) => r == Err(VisitFailed(e))
  }

  // ----- fixed arity -----

  /** Pulls exactly `n` items from a lazy list reader; more or fewer are an error. */
  method TakeExactly<E>(encoded: Bytes, n: nat) returns (r: Result<seq<Item>, ReceiptError<E>>)
    ensures Exactly(encoded, n) == if r.Ok? then Some(r.value) else None
  {
    hide SplitItems;
    hide ListItems;
    var source := OpenItems(encoded);
    if source.Err? {
      return Err(RlpFailed(source.error));
    }
    var items := source.value;
    var out: seq<Item> := [];
    PrependNothing(SplitItems(items.remaining));
    while |out| < n
      invariant |out| <= n && ListItems(encoded) == Prepend(out, SplitItems(items.remaining))
      decreases n - |out|
    {
      var next := items.Next();
      match next {
        case None =>
          Exhausted(out);
          return Err(Malformed);
        case Some(Err(e)) => return Err(RlpFailed(e));
        case Some(Ok(item)) =>
          PrependStep(out, item, SplitItems(items.remaining));
          out := out + [item];
      }
    }
    var after := items.Next();
    Exhausted(out);
    if after.Some? {
      if after.value.Ok? {
        PrependStep(out, after.value.value, SplitItems(items.remaining));
        LongerList(out + [after.value.value], SplitItems(items.remaining));
      }
      return Err(Malformed);
    }
    r := Ok(out);
  }

  lemma Exhausted(out: seq<Item>)
    ensures Prepend(out, SplitItems([])) == Ok(out)
  {
    assert out + [] == out;
  }

  lemma LongerList(out: seq<Item>, rest: Result<seq<Item>, RlpError>)
    ensures Prepend(out, rest).Ok? ==> |Prepend(out, rest).value| >= |out|
  {
  }

  // ----- topics -----

  /** Reads at most four topics into a fixed buffer. */
  method ReadTopics<E>(raw: Bytes) returns (r: Result<seq<Hash>, ReceiptError<E>>)
    ensures TopicsOf(raw) == if r.Ok? then Some(r.value) else None
  {
    hide SplitItems;
    hide ListItems;
    hide HashesOf;
    var source := OpenItems(raw);
    if source.Err? {
      return Err(RlpFailed(source.error));
    }
    var items := source.value;
    var topics := new Hash[4](_ => seq(32, _ => 0));
    var count := 0;
    ghost var read: seq<Item> := [];
    var more := true;
    PrependNothing(SplitItems(items.remaining));
    NoHashes();
    while more
      invariant fresh(items) && count == |read| <= 4 && HashesOf(read) == Some(topics[..count])
      invariant ListItems(raw) == Prepend(read, SplitItems(items.remaining))
      invariant !more ==> items.remaining == []
      decreases more, |items.remaining|
    {
      var next := items.Next();
      match next {
        case None => more := false;
        case Some(Err(e)) => return Err(RlpFailed(e));
        case Some(Ok(item)) =>
          PrependStep(read, item, SplitItems(items.remaining));
          LongerList(read + [item], SplitItems(items.remaining));
          HashesPrefix(read, item, SplitItems(items.remaining));
          if count == 4 || item.list || |item.data| != 32 {
            return Err(Malformed);
          }
          topics[count] := item.data;
          assert topics[..count + 1] == topics[..count] + [item.data];
          read, count := read + [item], count + 1;
      }
    }
    Exhausted(read);
    r := Ok(topics[..count]);
  }

  lemma NoHashes()
    ensures HashesOf([]) == Some([])
  {
  }

  /** One more item, and what its failure means for the whole list. */
  lemma HashesPrefix(read: seq<Item>, item: Item, rest: Result<seq<Item>, RlpError>)
    requires HashesOf(read).Some?
    ensures !item.list && |item.data| == 32 ==> HashesOf(read + [item]) == Some(HashesOf(read).value + [item.data])
    ensures item.list || |item.data| != 32 ==>
              Prepend(read + [item], rest).Ok? ==> HashesOf(Prepend(read + [item], rest).value).None?
  {
    assert (read + [item])[..|read|] == read;
    if (item.list || |item.data| != 32) && rest.Ok? {
      HashesFail(read + [item], rest.value);
    }
  }

  lemma {:induction false} HashesFail(bad: seq<Item>, rest: seq<Item>)
    requires HashesOf(bad).None?
    ensures HashesOf(bad + rest).None?
  {
    if rest == [] {
      assert bad + rest == bad;
    } else {
      HashesFail(bad, rest[..|rest| - 1]);
      assert (bad + rest)[..|bad + rest| - 1] == bad + rest[..|rest| - 1];
    }
  }

  // ----- logs -----

  method ReadLog<E>(raw: Bytes) returns (r: Result<Log, ReceiptError<E>>)
    ensures LogOf(raw) == if r.Ok? then Some(r.value) else None
  {
    hide TopicsOf;
    hide Exactly;
    var taken := TakeExactly<E>(raw, 3);
    if taken.Err? {
      return Err(taken.error);
    }
    var parts := taken.value;
    ThreeParts(raw);
    if parts[0].list || |parts[0].data| != 20 {
      return Err(Malformed);
    }
    var topics := ReadTopics<E>(parts[1].raw);
    if topics.Err? {
      return Err(topics.error);
    }
    if parts[2].list {
      return Err(Malformed);
    }
    r := Ok(Log(parts[0].data, topics.value, parts[2].data));
  }

  lemma ThreeParts(raw: Bytes)
    ensures Exactly(raw, 3).Some? ==> |Exactly(raw, 3).value| == 3
  {
  }

  lemma LogsPrefix(read: seq<Item>, item: Item, rest: Result<seq<Item>, RlpError>)
    requires LogsOf(read).Some?
    ensures LogOf(item.raw).Some? ==> LogsOf(read + [item]) == Some(LogsOf(read).value + [LogOf(item.raw).value])
    ensures LogOf(item.raw).None? ==>
              Prepend(read + [item], rest).Ok? ==> LogsOf(Prepend(read + [item], rest).value).None?
  {
    hide LogOf;
    assert (read + [item])[..|read|] == read;
    if LogOf(item.raw).None? && rest.Ok? {
      LogsFail(read + [item], rest.value);
    }
  }

  lemma {:induction false} LogsFail(bad: seq<Item>, rest: seq<Item>)
    requires LogsOf(bad).None?
    ensures LogsOf(bad + rest).None?
  {
    hide LogOf;
    if rest == [] {
      assert bad + rest == bad;
    } else {
      LogsFail(bad, rest[..|rest| - 1]);
      assert (bad + rest)[..|bad + rest| - 1] == bad + rest[..|rest| - 1];
    }
  }

  /** The logs of a longer list begin with the logs of its front. */
  lemma {:induction false} LogsFront(front: seq<Item>, rest: seq<Item>)
    requires LogsOf(front + rest).Some?
    ensures LogsOf(front).Some? && LogsOf(front).value <= LogsOf(front + rest).value
  {
    hide LogOf;
    if rest == [] {
      assert front + rest == front;
    } else {
      assert (front + rest)[..|front + rest| - 1] == front + rest[..|rest| - 1];
      LogsFront(front, rest[..|rest| - 1]);
    }
  }

  lemma {:induction false} FoldLogsErr<S, E>(
      visit: (S, bool, Log) -> Result<S, E>, init: S, success: bool, front: seq<Log>, logs: seq<Log>)
    requires front <= logs && FoldLogs(visit, init, success, front).Err?
    ensures FoldLogs(visit, init, success, logs) == FoldLogs(visit, init, success, front)
  {
    if front != logs {
      FoldLogsErr(visit, init, success, front, logs[..|logs| - 1]);
    }
  }

  /** What the list of logs must lead to. */
  ghost predicate LogsVisited<S, E>(
    items: Result<seq<Item>, RlpError>, visit: (S, bool, Log) -> Result<S, E>, init: S, success: bool,
    r: Result<(nat, S), ReceiptError<E>>)
  {
    if items.Err? || LogsOf(items.value).None? then r.Err?
    else
      var logs := LogsOf(items.value).value;
      match FoldLogs(visit, init, success, logs)
      case Ok(state) => r == Ok((|logs|, state))
      case Err(e) => r == Err(VisitFailed(e))
  }

  lemma VisitorFails<S, E>(
      read: seq<Item>, rest: Result<seq<Item>, RlpError>, visit: (S, bool, Log) -> Result<S, E>, init: S,
      success: bool, error: E)
    requires LogsOf(read).Some? && FoldLogs(visit, init, success, LogsOf(read).value) == Err(error)
    ensures LogsVisited(Prepend(read, rest), visit, init, success, Err(VisitFailed(error)))
  {
    hide LogsOf;
    if rest.Ok? && LogsOf(read + rest.value).Some? {
      LogsFront(read, rest.value);
      FoldLogsErr(visit, init, success, LogsOf(read).value, LogsOf(read + rest.value).value);
    }
  }

  lemma {:induction false} LogCountBound(items: seq<Item>)
    requires AllValid(items)
    ensures |items| <= |Join(items)|
  {
    if items != [] {
      var first := items[0];
      EncodedSizeOfValid(first);
      LogCountBound(items[1..]);
    }
  }

  lemma EncodedSizeOfValid(item: Item)
    requires item.Valid()
    ensures |item.raw| >= 1
  {
    assert |EncodeItem(item.list, item.data)| >= 1;
  }

  /** A list has fewer items than bytes, so the log counter cannot overflow. */
  lemma CountFits(raw: Bytes)
    ensures ListItems(raw).Ok? ==> |ListItems(raw).value| < U64_LIMIT
  {
    if ListItems(raw).Ok? {
      var items := ListItems(raw).value;
      ListCanonical(raw, items);
      LogCountBound(items);
      hide EncodeItem;
      assert |Join(items)| <= |EncodeItem(true, Join(items))|;
    }
  }

  method VisitLogList<S, E>(
      raw: Bytes, visit: (S, bool, Log) -> Result<S, E>, init: S, success: bool)
    returns (r: Result<(nat, S), ReceiptError<E>>)
    ensures LogsVisited(ListItems(raw), visit, init, success, r)
  {
    hide SplitItems;
    hide ListItems;
    hide LogOf;
    hide LogsOf;
    var source := OpenItems(raw);
    if source.Err? {
      return Err(RlpFailed(source.error));
    }
    var items := source.value;
    ghost var read: seq<Item>, done: seq<Log> := [], [];
    var count := 0;
    var state := init;
    var more := true;
    PrependNothing(SplitItems(items.remaining));
    NoLogs();
    CountFits(raw);
    while more
      invariant fresh(items) && count == |read| && LogsOf(read) == Some(done)
      invariant FoldLogs(visit, init, success, done) == Ok(state)
      invariant ListItems(raw) == Prepend(read, SplitItems(items.remaining))
      invariant !more ==> items.remaining == []
      decreases more, |items.remaining|
    {
      var next := items.Next();
      match next {
        case None => more := false;
        case Some(Err(e)) => return Err(RlpFailed(e));
        case Some(Ok(item)) =>
          PrependStep(read, item, SplitItems(items.remaining));
          LogsPrefix(read, item, SplitItems(items.remaining));
          LongerList(read + [item], SplitItems(items.remaining));
          var log := ReadLog<E>(item.raw);
          if log.Err? {
            return Err(log.error);
          }
          FoldLogsStep(visit, init, success, done, log.value);
          read, done := read + [item], done + [log.value];
          var visited := visit(state, success, log.value);
          if visited.Err? {
            VisitorFails(read, SplitItems(items.remaining), visit, init, success, visited.error);
            return Err(VisitFailed(visited.error));
          }
          state := visited.value;
          count := count + 1;
      }
    }
    Exhausted(read);
    r := Ok((count, state));
  }

  lemma NoLogs()
    ensures LogsOf([]) == Some([])
  {
  }

  lemma FoldLogsStep<S, E>(
      visit: (S, bool, Log) -> Result<S, E>, init: S, success: bool, done: seq<Log>, log: Log)
    ensures FoldLogs(visit, init, success, done + [log]) ==
            var before := FoldLogs(visit, init, success, done);
            if before.Err? then before else visit(before.value, success, log)
  {
    assert (done + [log])[..|done|] == done;
  }

  // ----- the whole receipt -----

  method ReadGas<E>(item: Item) returns (r: Result<u64, ReceiptError<E>>)
    ensures GasOf(item) == if r.Ok? then Some(r.value) else None
  {
    if item.list {
      return Err(Malformed);
    }
    var gas := item.data;
    if |gas| > 8 || (gas != [] && gas[0] == 0) {
      return Err(Malformed);
    }
    var n: nat := 0;
    for i := 0 to |gas|
      invariant n == BigEndian.Value(gas[..i])
    {
      BigEndian.ValueStep(gas, i);
      n := 256 * n + gas[i];
    }
    assert gas[..|gas|] == gas;
    LengthNeverOverflows(gas);
    r := Ok(n);
  }

  /** Visits all logs of a canonical receipt in order and reports its type, status, gas and log count;
      any other string is refused. */
  method VisitLogs<S, E>(encoded: Bytes, visit: (S, bool, Log) -> Result<S, E>, init: S)
    returns (r: Result<(Stats, S), ReceiptError<E>>)
    ensures Visited(DecodeReceipt(encoded), visit, init, r)
  {
    if encoded == [] {
      return Err(EmptyReceipt);
    }
    var first := encoded[0];
    if first >= 0xc0 {
      r := VisitBody(None, encoded, visit, init);
    } else if SupportedEnvelope(first) {
      r := VisitBody(Some(first), encoded[1..], visit, init);
    } else {
      r := Err(UnsupportedEnvelope);
    }
  }

  method VisitBody<S, E>(
      envelope: Option<byte>, payload: Bytes, visit: (S, bool, Log) -> Result<S, E>, init: S)
    returns (r: Result<(Stats, S), ReceiptError<E>>)
    ensures Visited(DecodeBody(envelope, payload), visit, init, r)
  {
    hide Exactly;
    hide ListItems;
    hide StatusOf;
    hide GasOf;
    hide LogsOf;
    var taken := TakeExactly<E>(payload, 4);
    if taken.Err? {
      return Err(taken.error);
    }
    var fields := taken.value;
    FourFields(payload);
    var success := StatusOf(fields[0]);
    if success.None? {
      return Err(Malformed);
    }
    var gas := ReadGas<E>(fields[1]);
    if gas.Err? {
      return Err(gas.error);
    }
    if fields[2].list || |fields[2].data| != 256 {
      return Err(Malformed);
    }
    var visited := VisitLogList(fields[3].raw, visit, init, success.value);
    match visited
    case Err(e) => r := Err(e);
    case Ok((count, state)) => r := Ok((Stats(envelope, success.value, gas.value, count), state));
  }

  lemma FourFields(payload: Bytes)
    ensures Exactly(payload, 4).Some? ==> |Exactly(payload, 4).value| == 4
  {
  }
}
