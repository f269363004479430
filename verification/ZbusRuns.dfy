/** What sequences of zbus calls from Lua guarantee. */
module ZbusRuns {
  import opened Bytes
  import opened Descriptor
  import opened Lens
  import opened Reading
  import opened LensLaws
  import opened MergeLaws
  import opened LuaState
  import opened TableView
  import opened SysHeap
  import opened Bus
  import opened ScratchLaws
  import opened Zbus

  // ---------------------------------------------------------------- publish, then read

  /** A message encoded from a complete table decodes to that table in normal form, whatever
      the scratch block held, and all its strings are terminated. */
  lemma {:induction false} PublishRead(w: nat, d: MsgDescr, t: Table, scratch: seq<Byte>)
    requires Wf(d.fields) && Span(d.fields) <= |scratch| && Full(d.fields, t)
    ensures Typed(d.fields, t) && Terminated(d.fields, Put(d.fields, t, scratch))
    ensures Readable(d.fields, Put(d.fields, t, scratch), 0)
    ensures Read(w, d.fields, Put(d.fields, t, scratch), 0) == Normal(w, d.fields, t)
  {
    FullTyped(d.fields, t);
    PutTerminated(d.fields, t, scratch);
    PutGetFull(w, d.fields, t, scratch);
    TerminatedReadWhole(w, d.fields, Put(d.fields, t, scratch));
  }

  /** channel:pub(table, 200) on a table that is complete for the channel: at most one call into
      zbus, whose message decodes to the table, normalised, whatever code zbus returns. Without
      that call the scratch block was refused. */
  method PublishComplete(L: State, c: Conversions, w: nat, heap: RawHeap, bus: ZBus, chan: nat, table: Value)
    returns (err: int, ghost call: seq<BusCall>)
    requires L.Valid() && heap.Valid() && bus.Valid() && chan < |bus.chans|
    requires bus.chans[chan].descr.Some? && IsTable(L.tables, table)
    requires Conforms(L.tables, bus.chans[chan].descr.value.fields, table)
    requires Full(bus.chans[chan].descr.value.fields, View(c, L.tables, bus.chans[chan].descr.value.fields, table))
    modifies L, heap, bus
    ensures L.Valid() && heap.Valid() && bus.Valid() && L.stack == [ChannelRef(chan), table, Integer(200), Integer(err)]
    ensures heap.live == old(heap.live) && old(heap.calls) <= heap.calls && |bus.queues| == old(|bus.queues|)
    ensures bus.calls == old(bus.calls) + call
    ensures call == [] ==>
              && err == -12 && bus.queues == old(bus.queues)
              && (bus.chans[chan].msgSize > 0 ==> Asked(null, bus.chans[chan].msgSize, null) in heap.calls)
    ensures call != [] ==>
              && |call| == 1 && call[0].Published? && call[0] == Published(chan, call[0].bytes, 200, err)
              && var fs, m := bus.chans[chan].descr.value.fields, call[0].bytes;
              && |m| == bus.chans[chan].msgSize && Span(fs) <= |m| && Readable(fs, m, 0)
              && Read(w, fs, m, 0) == Normal(w, fs, View(c, old(L.tables), fs, table))
              && (err == 0 ==> bus.cells == old(bus.cells)[chan := m])
              && forall o | 0 <= o < |bus.queues| ::
                   bus.queues[o] == old(bus.queues[o]) || bus.queues[o] == old(bus.queues[o]) + [Message(chan, m)]
  {
    hide Wf, Span, Typed, Full, Normal, Read, Readable, Put, Terminated, Conforms, View, WfChannel, Refused, Borrowed, Kept, Timeout, OneMore;
    ghost var d, size := bus.chans[chan].descr.value, bus.chans[chan].msgSize;
    assert WfChannel(bus.chans[chan]);
    ChannelWf(bus.chans[chan]);
    Timeout200(c);
    L.Frame([ChannelRef(chan), table, Integer(200)]);
    var pub;
    ghost var scratch;
    pub, scratch := ChanPub(L, c, heap, bus);
    err := L.stack[3].i;
    call := bus.calls[|old(bus.calls)|..];
    CallsGrow(old(heap.calls), heap.calls, size);
    if scratch != [] {
      PublishRead(w, d, View(c, L.tables, d.fields, table), scratch);
    } else if size > 0 {
      RefusedAsked(old(heap.calls), heap.calls, heap.calls, size);
    }
  }

  /** channel:pub and then channel:read, on a table that is complete for the channel. Unless
      another message is published in between, the table read is the table published,
      normalised; a read that succeeds after a successful publish is never undefined. */
  method PublishThenRead(L: State, c: Conversions, w: nat, heap: RawHeap, bus: ZBus, chan: nat, table: Value)
    returns (pubErr: int, read: Outcome, ghost pubCall: seq<BusCall>, ghost readCall: seq<BusCall>)
    requires L.Valid() && heap.Valid() && bus.Valid() && chan < |bus.chans|
    requires bus.chans[chan].descr.Some? && IsTable(L.tables, table)
    requires Conforms(L.tables, bus.chans[chan].descr.value.fields, table)
    requires Full(bus.chans[chan].descr.value.fields, View(c, L.tables, bus.chans[chan].descr.value.fields, table))
    modifies L, heap, bus
    ensures L.Valid() && heap.Valid() && bus.Valid() && !read.Raised?
    // at most the two calls into zbus, and a missing one was refused its scratch block
    ensures bus.calls == old(bus.calls) + pubCall + readCall
    ensures if pubCall == [] then pubErr == -12
            else |pubCall| == 1 && pubCall[0].Published? && pubCall[0] == Published(chan, pubCall[0].bytes, 200, pubErr)
    ensures read.Returned? ==> read.n == 2 && heap.live == old(heap.live) && |L.stack| == 4 && L.stack[2].Integer?
    ensures if readCall == [] then read.Returned? && L.stack[2] == Integer(-12)
            else readCall == [WasRead(chan, 200, if read.Returned? then L.stack[2].i else read.err)]
    ensures (pubCall == [] || readCall == []) && bus.chans[chan].msgSize > 0 ==> Asked(null, bus.chans[chan].msgSize, null) in heap.calls
    ensures pubErr == 0 ==> read != Undefined(0)
    ensures pubErr == 0 && read.Returned? && L.stack[2] == Integer(0) ==>
              && L.stack[3].TableRef?
              && var fs := bus.chans[chan].descr.value.fields;
              && Rep(L.tables, fs, L.stack[3].id, Normal(w, fs, View(c, old(L.tables), fs, table)))
  {
    hide Wf, Span, Full, Normal, Read, Readable, Rep, Conforms, View, WfChannel, GrowsExcept, Refused, Borrowed, Kept, Timeout;
    Timeout200(c);
    pubErr, pubCall := PublishComplete(L, c, w, heap, bus, chan, table);
    ghost var between, heapBetween, size := bus.calls, heap.calls, bus.chans[chan].msgSize;
    L.Frame([ChannelRef(chan), Integer(200)]);
    ghost var block;
    read, block := ChanRead(L, c, w, heap, bus);
    readCall := bus.calls[|between|..];
    CallsGrow(heapBetween, heap.calls, size);
    if readCall == [] && size > 0 {
      RefusedAsked(heapBetween, heap.calls, heap.calls, size);
    }
  }

  lemma {:induction false} Timeout200(c: Conversions)
    ensures Timeout(c, Integer(200)) == 200 && Timeout(c, Integer(250)) == 250
  {
    ArgumentKinds(c, map[], 0, 0, 0, 200, [], []);
    ArgumentKinds(c, map[], 0, 0, 0, 250, [], []);
  }

  /** Calls of observer:wait_msg(250) only. */
  predicate OnlyWaits(calls: seq<BusCall>, obs: nat)
  {
    forall k | 0 <= k < |calls| :: calls[k].Waited? && calls[k] == Waited(obs, 250, calls[k].err)
  }

  lemma {:induction false} NoWaits(calls: seq<BusCall>, obs: nat)
    ensures OnlyWaits(calls[|calls|..], obs)
  {
  }

  lemma {:induction false} OneWaitMore(before: seq<BusCall>, n: nat, obs: nat, after: seq<BusCall>)
    requires n <= |before| < |after| && after == before + [after[|before|]] && OnlyWaits(before[n..], obs)
    requires after[|before|].Waited? && after[|before|] == Waited(obs, 250, after[|before|].err)
    ensures OnlyWaits(after[n..], obs)
  {
    assert after[n..] == before[n..] + [after[|before|]];
  }

  /** Repeated observer:wait_msg calls, up to the n-th success: messages arrive in order, one per
      success, and the results of the last success are left on the stack. */
  method WaitTimes(lib: Library, L: State, c: Conversions, w: nat, heap: RawHeap, bus: ZBus, obs: nat,
                   n: nat, attempts: nat)
    returns (received: nat, undefined: bool, tries: nat, ghost refusals: nat)
    requires L.Valid() && heap.Valid() && bus.Valid() && lib.Covers(bus.chans) && obs < |bus.queues|
    modifies L, heap, bus
    ensures L.Valid() && heap.Valid() && bus.Valid() && |bus.queues| == old(|bus.queues|)
    ensures received <= n && received <= |old(bus.queues[obs])|
    // it stops at the n-th success, at an undefined message or when the attempts are used up,
    // and every attempt is one wait for this observer, unless it was refused its scratch block
    ensures received == n || undefined || tries == attempts
    ensures refusals <= tries <= attempts && |bus.calls| == |old(bus.calls)| + tries - refusals && old(bus.calls) <= bus.calls
    ensures OnlyWaits(bus.calls[|old(bus.calls)|..], obs)
    ensures lib.maxChanMsgSize > 0 && !undefined ==> |heap.calls| == |old(heap.calls)| + refusals + 2 * (tries - refusals)
    ensures undefined ==> UnreadableHead(bus.chans, old(bus.queues[obs])[received..])
    ensures !undefined ==> heap.live == old(heap.live) && bus.queues[obs] == old(bus.queues[obs])[received..]
    ensures received == n > 0 ==>
              && !undefined && |L.stack| == 5 && L.stack[2] == Integer(0)
              && DeliveredHead(L.tables, w, bus.chans, old(bus.queues[obs])[n - 1..], L.stack[3..])
  {
    hide DeliveredHead, UnreadableHead, OnlyWaits, GrowsExcept, Refused, Borrowed, Kept, Timeout;
    ghost var queue := bus.queues[obs];
    received, undefined, tries, refusals := 0, false, 0, 0;
    Timeout200(c);
    NoWaits(bus.calls, obs);
    while tries < attempts && received < n
      invariant L.Valid() && heap.Valid() && bus.Valid() && |bus.queues| == old(|bus.queues|)
      invariant refusals <= tries <= attempts && |bus.calls| == |old(bus.calls)| + tries - refusals && old(bus.calls) <= bus.calls
      invariant OnlyWaits(bus.calls[|old(bus.calls)|..], obs)
      invariant lib.maxChanMsgSize > 0 ==> |heap.calls| == |old(heap.calls)| + refusals + 2 * (tries - refusals)
      invariant received <= n && received <= |queue| && bus.queues[obs] == queue[received..]
      invariant heap.live == old(heap.live)
      invariant received == n > 0 ==>
                  && |L.stack| == 5 && L.stack[2] == Integer(0)
                  && DeliveredHead(L.tables, w, bus.chans, queue[n - 1..], L.stack[3..])
    {
      L.Frame([ObserverRef(obs), Integer(250)]);
      ghost var before, heapBefore := bus.calls, heap.calls;
      var wait := lib.SubWaitMsg(L, c, w, heap, bus);
      CallsGrow(heapBefore, heap.calls, lib.maxChanMsgSize);
      tries := tries + 1;
      if bus.calls == before {
        refusals := refusals + 1;
      } else {
        OneWaitMore(before, |old(bus.calls)|, obs, bus.calls);
      }
      if wait != Returned(3) {
        return received, true, tries, refusals;
      }
      if L.stack[2] == Integer(0) {
        HeadThere(L.tables, w, bus.chans, queue[received..], L.stack[3..]);
        received := received + 1;
      }
    }
  }

  lemma {:induction false} HeadThere(h: Heap, w: nat, chans: seq<Channel>, queue: seq<Message>, results: seq<Value>)
    requires DeliveredHead(h, w, chans, queue, results)
    ensures queue != []
  {
  }

  /** channel:pub by one thread and observer:wait_msg calls by another, with its own Lua state,
      on a table that is complete for the channel. Whatever error the publish reports and however
      many messages are waiting already, from whatever channels: once all of those have been
      received, the next successful wait yields this channel and the table, normalised. */
  method PublishThenWait(lib: Library, P: State, C: State, c: Conversions, w: nat, heap: RawHeap, bus: ZBus,
                         chan: nat, table: Value, obs: nat, attempts: nat)
    returns (pubErr: int, received: nat, undefined: bool)
    requires P != C && P.Valid() && C.Valid() && heap.Valid() && bus.Valid() && lib.Covers(bus.chans)
    requires chan < |bus.chans| && obs < |bus.queues|
    requires bus.chans[chan].descr.Some? && IsTable(P.tables, table)
    requires Conforms(P.tables, bus.chans[chan].descr.value.fields, table)
    requires Full(bus.chans[chan].descr.value.fields, View(c, P.tables, bus.chans[chan].descr.value.fields, table))
    modifies P, C, heap, bus
    ensures P.Valid() && C.Valid() && heap.Valid() && bus.Valid()
    ensures received <= |old(bus.queues[obs])| + 1
    // only an earlier message can be undefined; otherwise all scratch blocks are free again
    ensures undefined ==> received < |old(bus.queues[obs])| && UnreadableHead(bus.chans, old(bus.queues[obs])[received..])
    ensures !undefined ==> heap.live == old(heap.live)
    ensures received == |old(bus.queues[obs])| + 1 ==>
              && |C.stack| == 5 && C.stack[2] == Integer(0) && C.stack[3] == ChannelRef(chan) && C.stack[4].TableRef?
              && var fs := bus.chans[chan].descr.value.fields;
              && Rep(C.tables, fs, C.stack[4].id, Normal(w, fs, View(c, old(P.tables), fs, table)))
  {
    hide Wf, Span, Full, Normal, Read, Readable, Rep, Conforms, View, WfChannel;
    var before := bus.queues[obs];
    ghost var call;
    pubErr, call := PublishComplete(P, c, w, heap, bus, chan, table);
    ghost var m, queue := if call == [] then Message(chan, []) else Message(chan, call[0].bytes), bus.queues[obs];
    var tries;
    ghost var refusals;
    received, undefined, tries, refusals := WaitTimes(lib, C, c, w, heap, bus, obs, |before| + 1, attempts);
    LastReadable(bus.chans, before, queue, received, m);
    if received == |before| + 1 {
      assert queue[|before|..] == [m];
      ReadFromMessage(C.tables, w, bus.chans[chan].descr.value.fields, C.stack[4].id, m.bytes);
    }
  }

  /** A message without NUL is one of those that were waiting before. */
  lemma {:induction false} LastReadable(chans: seq<Channel>, before: seq<Message>, queue: seq<Message>, k: nat, m: Message)
    requires queue == before || (queue == before + [m] && !UnreadableHead(chans, [m]))
    requires k <= |queue|
    ensures UnreadableHead(chans, queue[k..]) ==> k < |before| && UnreadableHead(chans, before[k..])
  {
    if k < |before| {
      assert before[k..][0] == queue[k..][0];
    } else if k < |queue| {
      assert queue[k..] == [m];
    }
  }

  lemma {:induction false} ChannelWf(ch: Channel)
    requires WfChannel(ch) && ch.descr.Some?
    ensures Wf(ch.descr.value.fields) && Span(ch.descr.value.fields) <= ch.msgSize
  {
  }

  // ---------------------------------------------------------------- a channel as a nested table

  /** A table with a keyless value, such as a channel, in place of a nested table that has a leaf
      at some depth conforms, but what it publishes depends on the scratch block. */
  lemma {:induction false} KeylessExposes(c: Conversions, h: Heap, w: nat, fs: seq<Field>, v: Value, i: nat, n: nat)
    requires w >= 1 && Wf(fs) && Span(fs) <= n && Conforms(h, fs, v)
    requires i < |fs| && fs[i].kind.Object? && Keyless(h, fs[i].kind.sub, Index(h, v, fs[i].name))
    requires !Bare(fs[i].kind.sub)
    ensures Typed(fs, View(c, h, fs, v))
    ensures !forall m: seq<Byte>, m': seq<Byte> | |m| == |m'| == n :: SameMessage(w, fs, View(c, h, fs, v), m, m')
  {
    assert WfField(fs[i]);
    hide SameMessage, Covered, Wf, WfField, Span, Bare;
    var t, u := View(c, h, fs, v), Index(h, v, fs[i].name);
    ViewTyped(c, h, fs, v);
    ViewAt(c, h, fs, v, i);
    ViewKeyless(c, h, fs[i].kind.sub, u);
    assert Wf(fs[i].kind.sub) by {
      WfSub(fs[i]);
    }
    EmptyCoveredIff(fs[i].kind.sub);
    EmptyObjectUncovered(fs, t, i);
    TableDecidesIff(w, fs, t, n);
  }

  lemma {:induction false} WfSub(f: Field)
    requires WfField(f) && f.kind.Object?
    ensures Wf(f.kind.sub)
  {
  }

  /** The methods luaopen_zbus puts into the channel metatable, which is its own __index. */
  const ZBUS_METHODS: Heap := map[CHANNEL_METHODS := map[
    "__name" := String([]), "__index" := TableRef(CHANNEL_METHODS), "pub" := Function(0), "read" := Function(1),
    "__tostring" := Function(2), "__eq" := Function(3)]]

  /** The sensor configuration of the sample, cut down to one coordinate. */
  const SENSOR: seq<Field> := [Field("sensor_id", Int, 0, 4), Field("offset", Object([Field("x", Int, 0, 4)]), 8, 12)]

  /** { sensor_id = 1, offset = <a channel> } raises no error, and the offset that is published
      is what the scratch block held. */
  lemma {:induction false} ChannelAsOffset(c: Conversions, w: nat)
    requires w >= 1
    ensures var h := ZBUS_METHODS[RESERVED := map["sensor_id" := Integer(1), "offset" := ChannelRef(0)]];
            && Wf(SENSOR) && Span(SENSOR) <= 20 && Conforms(h, SENSOR, TableRef(RESERVED))
            && Typed(SENSOR, View(c, h, SENSOR, TableRef(RESERVED)))
            && !forall m: seq<Byte>, m': seq<Byte> | |m| == |m'| == 20 ::
                 SameMessage(w, SENSOR, View(c, h, SENSOR, TableRef(RESERVED)), m, m')
  {
    hide SameMessage, View;
    var h := ZBUS_METHODS[RESERVED := map["sensor_id" := Integer(1), "offset" := ChannelRef(0)]];
    var sub := SENSOR[1].kind.sub;
    assert Keyless(h, sub, ChannelRef(0)) by {
      assert "x" !in ZBUS_METHODS[CHANNEL_METHODS];
    }
    ViewKeyless(c, h, sub, ChannelRef(0));
    assert Index(h, TableRef(RESERVED), "offset") == ChannelRef(0);
    SensorWf();
    assert sub[0].kind == Int && Extent(sub[0]) == 4;
    KeylessExposes(c, h, w, SENSOR, TableRef(RESERVED), 1, 20);
  }

  lemma {:induction false} SensorWf()
    ensures Wf(SENSOR) && Span(SENSOR) <= 20
  {
    assert Wf(SENSOR[1].kind.sub);
    assert SENSOR[1].kind.sub[..0] == [];
    assert SENSOR[..1][..0] == [] && SENSOR[..1][0] == SENSOR[0];
  }

  // ---------------------------------------------------------------- the raw heap over many calls

  datatype Call = PubCall(args: seq<Value>) | ReadCall(args: seq<Value>) | WaitCall(args: seq<Value>)

  /** Any sequence of calls. While they return normally the set of live raw blocks stays what
      it was; the run stops at the first call that does not return. */
  method RunCalls(lib: Library, L: State, c: Conversions, w: nat, heap: RawHeap, bus: ZBus, calls: seq<Call>)
    returns (outs: seq<Outcome>)
    requires L.Valid() && heap.Valid() && bus.Valid() && lib.Covers(bus.chans)
    requires forall k | 0 <= k < |calls| :: Declared(bus, calls[k].args)
    modifies L, heap, bus
    ensures |outs| <= |calls| && forall k | 0 <= k < |outs| - 1 :: outs[k].Returned?
    ensures outs == [] || outs[|outs| - 1].Returned? ==> |outs| == |calls| && heap.live == old(heap.live)
    ensures outs != [] && outs[|outs| - 1] == Raised ==>
              || heap.live == old(heap.live)
              || (&& var call := calls[|outs| - 1];
                  && call.PubCall? && |call.args| == 3 && call.args[0].ChannelRef? && call.args[0].chan < |bus.chans|
                  && OneMore(old(heap.live), heap.live, bus.chans[call.args[0].chan].msgSize))
  {
    outs := [];
    while |outs| < |calls|
      invariant |outs| <= |calls| && forall k | 0 <= k < |outs| :: outs[k].Returned?
      invariant L.Valid() && heap.Valid() && bus.Valid() && |bus.queues| == old(|bus.queues|)
      invariant heap.live == old(heap.live)
      decreases |calls| - |outs|
    {
      var call := calls[|outs|];
      assert Declared(bus, call.args);
      L.Frame(call.args);
      var o;
      match call {
        case PubCall(_) =>
          ghost var scratch;
          o, scratch := ChanPub(L, c, heap, bus);
        case ReadCall(_) =>
          ghost var block;
          o, block := ChanRead(L, c, w, heap, bus);
        case WaitCall(_) =>
          o := lib.SubWaitMsg(L, c, w, heap, bus);
      }
      outs := outs + [o];
      if !o.Returned? {
        return;
      }
    }
  }
}
