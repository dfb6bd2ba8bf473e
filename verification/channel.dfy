/**
 * The receiving side of the WebSocket channel: the raw stream of messages
 * (or transport errors) is filtered down to text payloads and errors, and
 * `recv_json` takes the next filtered item and decodes it. The stream is a
 * finite sequence of raw items that ends when the connection does; JSON
 * decoding is a parameter.
 */
module Channel {
  import opened Wrappers
  import opened WsError

  /** An item of the raw stream: a message, or the transport's error. */
  type RawItem = Result<Message, TransportError>

  /** An item of the filtered stream: a text payload, or an error. */
  type Item = Result<string, Error>

  /** Frames the filter drops. */
  predicate IsControl(m: Message) {
    m.Ping? || m.Pong? || m.Close?
  }

  /** `filter` in `WebSocketReceriver::new`. */
  function Filter(raw: RawItem): (r: Option<Item>)
    ensures r.None? <==> raw.Ok? && IsControl(raw.value)
    ensures r.Some? && r.value.Ok? <==> raw.Ok? && raw.value.Text?
    ensures r.Some? && r.value.Ok? ==> raw == Ok(Text(r.value.value))
    ensures raw.Ok? && !raw.value.Text? && !IsControl(raw.value) ==> r == Some(Err(UnexpectedMessage(raw.value)))
    ensures raw.Err? ==> r == Some(Err(FromTransport(raw.error)))
  {
    match raw
    case Ok(Text(t)) => Some(Ok(t))
    case Ok(Ping(_)) => None
    case Ok(Pong(_)) => None
    case Ok(Close(_)) => None
    case Ok(m) => Some(Err(UnexpectedMessage(m)))
    case Err(e) => Some(Err(FromTransport(e)))
  }

  /** What the filter keeps of one raw item: nothing or one item. */
  function Kept(raw: RawItem): seq<Item> {
    if Filter(raw).Some? then [Filter(raw).value] else []
  }

  /** `stream.filter_map(filter)` over the whole raw stream. */
  function FilterMap(raws: seq<RawItem>): (r: seq<Item>)
    ensures |r| <= |raws|
  {
    if raws == [] then [] else FilterMap(raws[..|raws| - 1]) + Kept(raws[|raws| - 1])
  }

  /** The positions of the raw items that the filter keeps, in stream order. */
  function Survivors(raws: seq<RawItem>): (idx: seq<nat>)
    ensures forall k :: 0 <= k < |idx| ==> idx[k] < |raws|
    ensures forall k, l :: 0 <= k < l < |idx| ==> idx[k] < idx[l]
    ensures forall i :: 0 <= i < |raws| ==> (i in idx <==> Filter(raws[i]).Some?)
  {
    if raws == [] then []
    else
      var n := |raws| - 1;
      assert forall i :: 0 <= i < n ==> raws[..n][i] == raws[i];
      Survivors(raws[..n]) + (if Filter(raws[n]).Some? then [n] else [])
  }

  /**
   * The filtered stream is the kept raw items, in their original order:
   * item `k` comes from raw position `Survivors(raws)[k]`.
   */
  lemma {:induction false} FilterMapKeepsOrder(raws: seq<RawItem>)
    ensures |FilterMap(raws)| == |Survivors(raws)|
    ensures forall k :: 0 <= k < |FilterMap(raws)| ==> Filter(raws[Survivors(raws)[k]]) == Some(FilterMap(raws)[k])
  {
    if raws != [] {
      var n := |raws| - 1;
      var pre := raws[..n];
      FilterMapKeepsOrder(pre);
      var idx, items := Survivors(pre), FilterMap(pre);
      assert Survivors(raws) == idx + (if Filter(raws[n]).Some? then [n] else []);
      assert FilterMap(raws) == items + Kept(raws[n]);
      forall k | 0 <= k < |FilterMap(raws)|
        ensures Filter(raws[Survivors(raws)[k]]) == Some(FilterMap(raws)[k])
      {
        if k < |items| {
          assert Survivors(raws)[k] == idx[k] && FilterMap(raws)[k] == items[k];
          assert pre[idx[k]] == raws[idx[k]];
        }
      }
    }
  }

  /** Filtering a concatenation filters each part. */
  lemma {:induction false} FilterMapAppend(a: seq<RawItem>, b: seq<RawItem>)
    ensures FilterMap(a + b) == FilterMap(a) + FilterMap(b)
    decreases |b|
  {
    if b != [] {
      var n := |b| - 1;
      assert (a + b)[..|a + b| - 1] == a + b[..n];
      assert (a + b)[|a + b| - 1] == b[n];
      FilterMapAppend(a, b[..n]);
    } else {
      assert a + b == a;
    }
  }

  /** Filtering one raw item keeps it or drops it. */
  lemma FilterMapOne(raw: RawItem)
    ensures FilterMap([raw]) == Kept(raw)
  {
    assert [raw][..0] == [];
  }

  /**
   * `next()` on the filtered stream: consumes raw items up to and including
   * the first one the filter keeps, and returns that item and the rest; at
   * the end of the raw stream, `None`.
   */
  function Next(raws: seq<RawItem>): (r: (Option<Item>, seq<RawItem>))
    ensures |r.1| <= |raws| && r.1 == raws[|raws| - |r.1|..]
    ensures r.0.None? ==> r.1 == []
  {
    if raws == [] then (None, [])
    else
      match Filter(raws[0])
      case Some(x) => (Some(x), raws[1..])
      case None => Next(raws[1..])
  }

  /** Repeated `next()` yields exactly the filtered stream, one item at a time. */
  lemma {:induction false} NextEnumerates(raws: seq<RawItem>)
    ensures Next(raws).0.None? ==> FilterMap(raws) == []
    ensures Next(raws).0.Some? ==> FilterMap(raws) == [Next(raws).0.value] + FilterMap(Next(raws).1)
  {
    if raws != [] {
      assert raws == [raws[0]] + raws[1..];
      FilterMapAppend([raws[0]], raws[1..]);
      FilterMapOne(raws[0]);
      NextEnumerates(raws[1..]);
    }
  }

  /** `map` in `recv_json`: end of stream, a passed-on error, or a payload to decode. */
  function RecvJsonMap<T>(next: Option<Item>, decode: string -> Result<T, JsonError>): (r: Result<T, Error>)
    ensures next.None? ==> r == Err(FromTransport(ConnectionClosed))
    ensures next.Some? && next.value.Err? ==> r == Err(next.value.error)
    ensures next.Some? && next.value.Ok? ==>
      (r.Ok? <==> decode(next.value.value).Ok?)
      && (r.Ok? ==> r.value == decode(next.value.value).value)
      && (r.Err? ==> r.error == FromJson(decode(next.value.value).error))
  {
    match next
    case Some(Ok(t)) =>
      (match decode(t)
       case Ok(v) => Ok(v)
       case Err(j) => Err(FromJson(j)))
    case Some(Err(e)) => Err(e)
    case None => Err(FromTransport(ConnectionClosed))
  }

  /**
   * `recv_json`: the first item of the filtered stream, decoded, or
   * `ConnectionClosed` when there is none; what remains is a suffix of the raw
   * stream whose filtered items are the rest.
   */
  function RecvJson<T>(raws: seq<RawItem>, decode: string -> Result<T, JsonError>): (r: (Result<T, Error>, seq<RawItem>))
    ensures FilterMap(raws) == [] ==> r.0 == Err(WebSocket(ConnectionClosed))
    ensures FilterMap(raws) != [] ==> r.0 == RecvJsonMap(Some(FilterMap(raws)[0]), decode)
    ensures FilterMap(raws) != [] ==> FilterMap(r.1) == FilterMap(raws)[1..]
    ensures |r.1| <= |raws| && r.1 == raws[|raws| - |r.1|..]
  {
    var (next, rest) := Next(raws);
    NextEnumerates(raws);
    (RecvJsonMap(next, decode), rest)
  }

  /** Ping, pong and close frames in front of the next item are skipped. */
  lemma {:induction false} RecvJsonSkipsControl<T>(controls: seq<RawItem>, rest: seq<RawItem>, decode: string -> Result<T, JsonError>)
    requires forall i :: 0 <= i < |controls| ==> controls[i].Ok? && IsControl(controls[i].value)
    ensures RecvJson(controls + rest, decode) == RecvJson(rest, decode)
  {
    if controls != [] {
      assert (controls + rest)[0] == controls[0];
      assert (controls + rest)[1..] == controls[1..] + rest;
      RecvJsonSkipsControl(controls[1..], rest, decode);
    } else {
      assert controls + rest == rest;
    }
  }
}
