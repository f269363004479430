/** The zbus methods of src/luaz_zbus.c: they move messages between Lua tables, scratch blocks
    from the Lua heap and zbus. */
module Zbus {
  import opened Bytes
  import opened Wrappers
  import opened Descriptor
  import opened Lens
  import opened Reading
  import opened LuaState
  import opened TableView
  import opened SysHeap
  import opened Bus
  import Codec

  const ENOMEM := 12
  const EINVAL := 22

  /** How a C function called from Lua ends: with n results on the stack, or by raising a Lua
      error, or by reading past the scratch block because a string meets no NUL in it. */
  datatype Outcome = Returned(n: nat) | Raised | Undefined(err: int)

  // ---------------------------------------------------------------- arguments

  /** luaL_checkinteger: None raises an argument error. */
  function CheckInteger(c: Conversions, v: Value): Option<int>
  {
    match v
    case Integer(i) => Some(i)
    case String(s) => c.toInteger(s)
    case _ => None
  }

  /** int timeout_ms = luaL_checkinteger(...), for an accepted argument. */
  function Timeout(c: Conversions, v: Value): int
    requires CheckInteger(c, v).Some?
  {
    WrapS(CheckInteger(c, v).value, 4)
  }

  /** What the three methods take for arguments: numbers and numerals pass as integers, and
      nothing else does. Only wait_msg allows more arguments. */
  lemma {:induction false} ArgumentKinds(c: Conversions, h: Heap, chan: nat, obs: nat, id: nat, i: int, s: seq<Byte>,
                                          extra: seq<Value>)
    ensures PubArgs(c, h, [ChannelRef(chan), TableRef(id), Integer(i)]) <==> id in h
    ensures PubArgs(c, h, [ChannelRef(chan), TableRef(id), String(s)]) <==> id in h && c.toInteger(s) != None
    ensures ReadArgs(c, [ChannelRef(chan), Integer(i)]) && WaitArgs(c, [ObserverRef(obs), Integer(i)] + extra)
    ensures extra != [] ==>
              !PubArgs(c, h, [ChannelRef(chan), TableRef(id), Integer(i)] + extra) && !ReadArgs(c, [ChannelRef(chan), Integer(i)] + extra)
    ensures ReadArgs(c, [ChannelRef(chan), String(s)]) <==> c.toInteger(s) != None
    ensures WaitArgs(c, [ObserverRef(obs), String(s)]) <==> c.toInteger(s) != None
    ensures forall v | v == Nil || v.Boolean? || v.TableRef? || v.Function? || v.ChannelRef? || v.ObserverRef? ::
              CheckInteger(c, v) == None
    ensures -0x8000_0000 <= i < 0x8000_0000 ==> Timeout(c, Integer(i)) == i
  {
    if -0x8000_0000 <= i < 0x8000_0000 {
      assert Pow256(4) == 256 * Pow256(3) && Pow256(3) == 256 * Pow256(2) && Pow256(2) == 256 * Pow256(1);
      WrapSFix(i, 4);
    }
  }

  predicate PubArgs(c: Conversions, h: Heap, args: seq<Value>)
  {
    |args| == 3 && args[0].ChannelRef? && IsTable(h, args[1]) && CheckInteger(c, args[2]).Some?
  }

  predicate ReadArgs(c: Conversions, args: seq<Value>)
  {
    |args| == 2 && args[0].ChannelRef? && CheckInteger(c, args[1]).Some?
  }

  predicate WaitArgs(c: Conversions, args: seq<Value>)
  {
    |args| >= 2 && args[0].ObserverRef? && CheckInteger(c, args[1]).Some?
  }

  /** Channel and observer userdata only ever hold what the declare functions looked up. */
  ghost predicate Declared(bus: ZBus, args: seq<Value>)
    reads bus
  {
    forall k | 0 <= k < |args| ::
      && (args[k].ChannelRef? ==> args[k].chan < |bus.chans|)
      && (args[k].ObserverRef? ==> args[k].obs < |bus.queues|)
  }

  // ---------------------------------------------------------------- the two conversions

  lemma {:induction false} SpliceWhole(fs: seq<Field>, t: Table, m: seq<Byte>)
    requires Span(fs) <= |m| && Typed(fs, t)
    ensures Splice(m, 0, Put(fs, t, m[0..0 + Span(fs)])) == Put(fs, t, m)
  {
    PutLocal(fs, t, m, Span(fs));
    assert m[0..0 + Span(fs)] == m[..Span(fs)];
  }

  /** lua_table_to_msg_struct, on the table at stack index 2: the message size, or 0 without a
      descriptor; ok is false when a Lua error is raised. */
  method TableToMsgStruct(L: State, c: Conversions, ch: Channel, msg: array<Byte>) returns (ok: bool, s: nat)
    requires L.Valid() && |L.stack| >= 2 && WfChannel(ch) && msg.Length == ch.msgSize
    modifies L, msg
    ensures L.Valid() && L.tables == old(L.tables) && L.next == old(L.next)
    ensures ok <==> ch.descr.Some? ==> Conforms(old(L.tables), ch.descr.value.fields, old(L.stack)[1])
    ensures ok ==> L.stack == old(L.stack)
    ensures ok ==> s == if ch.descr.Some? then ch.msgSize else 0
    ensures ok && ch.descr.Some? ==>
              var fs := ch.descr.value.fields;
              var t := View(c, old(L.tables), fs, old(L.stack)[1]);
              Typed(fs, t) && msg[..] == Put(fs, t, old(msg[..]))
  {
    match ch.descr
    case Some(d) =>
      hide Wf, Typed, Put, Span, Conforms, View;
      ghost var t := if Conforms(L.tables, d.fields, L.stack[1]) then View(c, L.tables, d.fields, L.stack[1]) else map[];
      ok := Codec.FromTable(L, c, d.fields, msg, 0, 2);
      if ok {
        SpliceWhole(d.fields, t, old(msg[..]));
      }
      s := d.msgSize;
    case None =>
      ok, s := true, 0;
  }

  /** msg_struct_to_lua_table: pushes the decoded table, or nil without a descriptor. */
  method MsgStructToTable(L: State, w: nat, ch: Channel, msg: seq<Byte>)
    requires L.Valid() && WfChannel(ch) && |msg| >= ch.msgSize
    requires ch.descr.Some? ==> Readable(ch.descr.value.fields, msg, 0)
    modifies L
    ensures L.Valid() && old(L.next) <= L.next && GrowsExcept(old(L.tables), L.tables, old(L.next))
    ensures L.stack == old(L.stack) + [if ch.descr.Some? then TableRef(old(L.next)) else Nil]
    ensures ch.descr.Some? ==> Rep(L.tables, ch.descr.value.fields, old(L.next), Read(w, ch.descr.value.fields, msg, 0))
    ensures ch.descr.None? ==> L.tables == old(L.tables)
  {
    match ch.descr
    case Some(d) =>
      hide Wf, Distinct, Readable, Read, Span, Rep;
      WfDistinct(d.fields);
      Codec.ToTable(L, w, d.fields, msg, 0);
    case None =>
      L.Push(Nil);
  }

  /** One block of the given size has been added to the live ones. */
  ghost predicate OneMore(before: map<array<Byte>, nat>, after: map<array<Byte>, nat>, size: nat)
  {
    exists b | b in after :: b !in before && after == before[b := size]
  }

  // ---------------------------------------------------------------- channel:pub

  /** Each FIFO is as before or has gained one message: scratch overlaid with the table v. */
  predicate Offered(c: Conversions, h: Heap, ch: Channel, chan: nat, v: Value, scratch: seq<Byte>,
                    before: seq<seq<Message>>, after: seq<seq<Message>>)
  {
    && ch.descr.Some? && |scratch| == ch.msgSize
    && var fs := ch.descr.value.fields;
    && Conforms(h, fs, v) && Span(fs) <= |scratch| && Typed(fs, View(c, h, fs, v))
    && |before| == |after|
    && var m := Message(chan, Put(fs, View(c, h, fs, v), scratch));
    && forall o | 0 <= o < |after| :: after[o] == before[o] || after[o] == before[o] + [m]
  }

  /** The part of chan_pub after its argument checks: allocate, convert, publish, free. ok is
      false when a Lua error is raised on the way. */
  method PubMessage(L: State, c: Conversions, chan: nat, timeout: int, heap: RawHeap, bus: ZBus)
    returns (ok: bool, err: int, ghost scratch: seq<Byte>)
    requires L.Valid() && heap.Valid() && bus.Valid() && chan < |bus.chans| && |L.stack| == 3
    modifies L, heap, bus
    ensures L.Valid() && heap.Valid() && bus.Valid()
    ensures L.tables == old(L.tables) && L.next == old(L.next) && |bus.queues| == old(|bus.queues|)
    ensures ok ==> heap.live == old(heap.live) && L.stack == old(L.stack)
    ensures ok && err == 0 ==>
              && var ch := bus.chans[chan];
              && ch.descr.Some? && |scratch| == ch.msgSize
              && Conforms(old(L.tables), ch.descr.value.fields, old(L.stack)[1])
              && var t := View(c, old(L.tables), ch.descr.value.fields, old(L.stack)[1]);
              && Typed(ch.descr.value.fields, t)
              && bus.cells == old(bus.cells)[chan := Put(ch.descr.value.fields, t, scratch)]
    ensures bus.chans[chan].descr.None? ==>
              ok && bus.cells == old(bus.cells) && bus.queues == old(bus.queues) && bus.calls == old(bus.calls)
    ensures ok ==>
              || bus.queues == old(bus.queues)
              || Offered(c, old(L.tables), bus.chans[chan], chan, old(L.stack)[1], scratch, old(bus.queues), bus.queues)
    ensures scratch == [] ==>
              && ok && err == -12
              && bus.cells == old(bus.cells) && bus.queues == old(bus.queues) && bus.calls == old(bus.calls)
              && Refused(old(heap.calls), heap.calls, bus.chans[chan].msgSize)
    ensures scratch != [] && ok ==> Borrowed(old(heap.calls), heap.calls, bus.chans[chan].msgSize)
    ensures scratch != [] && bus.chans[chan].descr.None? ==> err == -22
    ensures scratch != [] && ok && bus.chans[chan].descr.Some? ==>
              && var fs := bus.chans[chan].descr.value.fields;
              && |scratch| == bus.chans[chan].msgSize
              && Conforms(old(L.tables), fs, old(L.stack)[1]) && Span(fs) <= |scratch|
              && Typed(fs, View(c, old(L.tables), fs, old(L.stack)[1]))
              && bus.calls == old(bus.calls)
                   + [Published(chan, Put(fs, View(c, old(L.tables), fs, old(L.stack)[1]), scratch), timeout, err)]
    ensures scratch != [] && bus.chans[chan].descr.Some? ==>
              (ok <==> Conforms(old(L.tables), bus.chans[chan].descr.value.fields, old(L.stack)[1]))
    ensures !ok ==>
              && var ch := bus.chans[chan];
              && ch.descr.Some? && !Conforms(old(L.tables), ch.descr.value.fields, old(L.stack)[1])
              && bus.cells == old(bus.cells) && bus.queues == old(bus.queues) && bus.calls == old(bus.calls)
              && OneMore(old(heap.live), heap.live, ch.msgSize) && Kept(old(heap.calls), heap.calls, ch.msgSize)
  {
    hide Wf, Typed, Put, Span, Conforms, View, WfChannel, Refused, Borrowed, Kept;
    var ch := bus.chans[chan];
    assert WfChannel(ch);
    ChannelSpan(ch);
    ok, err, scratch := true, -EINVAL, [];
    var msg := heap.AllocRaw(ch.msgSize);
    if msg == null {
      IsRefused(old(heap.calls), heap.calls, ch.msgSize);
      return true, -ENOMEM, scratch;
    }
    IsKept(old(heap.calls), heap.calls, ch.msgSize, msg);
    scratch := msg[..];
    var s;
    ok, s := TableToMsgStruct(L, c, ch, msg);
    if !ok {
      return;
    }
    if s != 0 {
      err := bus.Publish(chan, msg, timeout);
    }
    heap.FreeRaw(msg, ch.msgSize);
  }

  /** channel:pub(table, timeout_ms) -> err. scratch is what the fresh block happened to hold,
      empty if there was none. */
  method ChanPub(L: State, c: Conversions, heap: RawHeap, bus: ZBus) returns (o: Outcome, ghost scratch: seq<Byte>)
    requires L.Valid() && heap.Valid() && bus.Valid() && Declared(bus, L.stack)
    modifies L, heap, bus
    ensures L.Valid() && heap.Valid() && bus.Valid()
    ensures L.tables == old(L.tables) && L.next == old(L.next) && !o.Undefined? && |bus.queues| == old(|bus.queues|)
    // argument errors touch nothing
    ensures !PubArgs(c, old(L.tables), old(L.stack)) ==>
              && o == Raised && heap.live == old(heap.live) && heap.calls == old(heap.calls)
              && bus.cells == old(bus.cells) && bus.queues == old(bus.queues) && bus.calls == old(bus.calls)
    // a normal return gives back the scratch block and pushes one error code
    ensures o.Returned? ==> o.n == 1 && heap.live == old(heap.live) && PubArgs(c, old(L.tables), old(L.stack))
    ensures o.Returned? ==> |L.stack| == 4 && L.stack[..3] == old(L.stack) && L.stack[3].Integer?
    // success: the channel holds the scratch bytes overlaid with the table
    ensures o.Returned? && L.stack[3] == Integer(0) ==>
              && var ch := bus.chans[old(L.stack)[0].chan];
              && ch.descr.Some? && |scratch| == ch.msgSize
              && Conforms(old(L.tables), ch.descr.value.fields, old(L.stack)[1])
              && var t := View(c, old(L.tables), ch.descr.value.fields, old(L.stack)[1]);
              && Typed(ch.descr.value.fields, t)
              && bus.cells == old(bus.cells)[old(L.stack)[0].chan := Put(ch.descr.value.fields, t, scratch)]
    // whatever error is reported, each FIFO gained that very message or nothing
    ensures o.Returned? ==>
              || bus.queues == old(bus.queues)
              || Offered(c, old(L.tables), bus.chans[old(L.stack)[0].chan], old(L.stack)[0].chan, old(L.stack)[1], scratch,
                         old(bus.queues), bus.queues)
    // without a descriptor nothing is published
    ensures PubArgs(c, old(L.tables), old(L.stack)) && bus.chans[old(L.stack)[0].chan].descr.None? ==>
              && o.Returned? && (scratch != [] ==> L.stack[3] == Integer(-22))
              && bus.cells == old(bus.cells) && bus.queues == old(bus.queues) && bus.calls == old(bus.calls)
    // -ENOMEM without a scratch block, when sys_heap has refused one of the message's size
    ensures PubArgs(c, old(L.tables), old(L.stack)) && scratch == [] ==>
              && o.Returned? && L.stack[3] == Integer(-12)
              && bus.cells == old(bus.cells) && bus.queues == old(bus.queues) && bus.calls == old(bus.calls)
              && Refused(old(heap.calls), heap.calls, bus.chans[old(L.stack)[0].chan].msgSize)
    // with one, it is freed once on return; with a descriptor as well, there is one call into
    // zbus, for this channel, message and timeout, and its code is the result
    ensures o.Returned? && scratch != [] ==> Borrowed(old(heap.calls), heap.calls, bus.chans[old(L.stack)[0].chan].msgSize)
    ensures o.Returned? && scratch != [] && bus.chans[old(L.stack)[0].chan].descr.Some? ==>
              && var fs, table := bus.chans[old(L.stack)[0].chan].descr.value.fields, old(L.stack)[1];
              && |scratch| == bus.chans[old(L.stack)[0].chan].msgSize
              && Conforms(old(L.tables), fs, table) && Span(fs) <= |scratch| && Typed(fs, View(c, old(L.tables), fs, table))
              && bus.calls == old(bus.calls) + [Published(old(L.stack)[0].chan,
                   Put(fs, View(c, old(L.tables), fs, table), scratch), Timeout(c, old(L.stack)[2]), L.stack[3].i)]
    // and it returns exactly when the table can be read
    ensures PubArgs(c, old(L.tables), old(L.stack)) && scratch != [] && bus.chans[old(L.stack)[0].chan].descr.Some? ==>
              (o.Returned? <==> Conforms(old(L.tables), bus.chans[old(L.stack)[0].chan].descr.value.fields, old(L.stack)[1]))
    // a Lua error while the table is being read keeps the scratch block for ever
    ensures PubArgs(c, old(L.tables), old(L.stack)) && o == Raised ==>
              && var ch := bus.chans[old(L.stack)[0].chan];
              && ch.descr.Some? && !Conforms(old(L.tables), ch.descr.value.fields, old(L.stack)[1])
              && bus.cells == old(bus.cells) && bus.queues == old(bus.queues) && bus.calls == old(bus.calls)
              && OneMore(old(heap.live), heap.live, ch.msgSize) && Kept(old(heap.calls), heap.calls, ch.msgSize)
  {
    hide Wf, Typed, Put, Span, Conforms, View, WfChannel, Refused, Borrowed, Kept, Timeout, Offered, OneMore;
    scratch := [];
    if |L.stack| != 3 || !L.stack[0].ChannelRef? || !IsTable(L.tables, L.stack[1]) || CheckInteger(c, L.stack[2]).None? {
      return Raised, scratch;
    }
    var ok, err;
    ok, err, scratch := PubMessage(L, c, L.stack[0].chan, Timeout(c, L.stack[2]), heap, bus);
    if !ok {
      return Raised, scratch;
    }
    L.Push(Integer(err));
    o := Returned(1);
  }

  // ---------------------------------------------------------------- channel:read

  /** The part of chan_read after its argument checks. block is what the scratch block holds
      when it is decoded, empty if there is none. */
  method ReadMessage(L: State, w: nat, chan: nat, timeout: int, heap: RawHeap, bus: ZBus)
    returns (err: int, defined: bool, ghost block: seq<Byte>)
    requires L.Valid() && heap.Valid() && bus.Valid() && chan < |bus.chans|
    modifies L, heap, bus`calls
    ensures L.Valid() && heap.Valid() && bus.Valid() && WfChannel(bus.chans[chan])
    ensures old(L.next) <= L.next && GrowsExcept(old(L.tables), L.tables, old(L.next))
    ensures bus.calls == old(bus.calls) ==>
              && defined && err == -12 && L.stack == old(L.stack) + [Integer(-12), Nil] && heap.live == old(heap.live)
              && Refused(old(heap.calls), heap.calls, bus.chans[chan].msgSize)
    ensures bus.calls != old(bus.calls) ==>
              && bus.calls == old(bus.calls) + [WasRead(chan, timeout, err)]
              && |block| == bus.chans[chan].msgSize && (err == 0 ==> block == bus.cells[chan])
              && Decodable(bus.chans[chan], block, defined)
    ensures bus.calls != old(bus.calls) && defined ==>
              && heap.live == old(heap.live) && Borrowed(old(heap.calls), heap.calls, bus.chans[chan].msgSize)
              && |L.stack| == |old(L.stack)| + 2 && L.stack[..|old(L.stack)| + 1] == old(L.stack) + [Integer(err)]
              && Decoded(L.tables, w, bus.chans[chan], L.stack[|old(L.stack)| + 1], block)
    ensures !defined ==> Kept(old(heap.calls), heap.calls, bus.chans[chan].msgSize)
  {
    hide Wf, Readable, Read, Span, Rep, WfChannel, GrowsExcept, Refused, Borrowed, Kept;
    var ch := bus.chans[chan];
    block := [];
    assert WfChannel(ch);
    ChannelSpan(ch);
    GrowsSame(L.tables, L.next);
    var msg := heap.AllocRaw(ch.msgSize);
    if msg == null {
      IsRefused(old(heap.calls), heap.calls, ch.msgSize);
      L.Push(Integer(-ENOMEM));
      L.Push(Nil);
      return -ENOMEM, true, block;
    }
    IsKept(old(heap.calls), heap.calls, ch.msgSize, msg);
    err := bus.Read(chan, msg, timeout);
    L.Push(Integer(err));
    block := msg[..];
    defined := ch.descr.None? || Readable(ch.descr.value.fields, msg[..], 0);
    if defined {
      MsgStructToTable(L, w, ch, msg[..]);
      heap.FreeRaw(msg, ch.msgSize);
    }
  }

  /** defined tells whether every described string of the block meets a NUL in it. */
  predicate Decodable(ch: Channel, block: seq<Byte>, defined: bool)
  {
    match ch.descr
    case None => defined
    case Some(d) => Span(d.fields) <= |block| && (defined <==> Readable(d.fields, block, 0))
  }

  /** v is what the block decodes to: a table, or nil without a descriptor. */
  ghost predicate Decoded(h: Heap, w: nat, ch: Channel, v: Value, block: seq<Byte>)
  {
    match ch.descr
    case None => v == Nil
    case Some(d) => v.TableRef? && Span(d.fields) <= |block| && Rep(h, d.fields, v.id, Read(w, d.fields, block, 0))
  }

  /** channel:read(timeout_ms) -> err, table. A failed read decodes the scratch block all the
      same, so its second result is a table, not nil; with a string field it may even be
      unterminated garbage, which is where Undefined comes from. */
  method ChanRead(L: State, c: Conversions, w: nat, heap: RawHeap, bus: ZBus) returns (o: Outcome, ghost block: seq<Byte>)
    requires L.Valid() && heap.Valid() && bus.Valid() && Declared(bus, L.stack)
    modifies L, heap, bus`calls
    ensures L.Valid() && heap.Valid() && bus.Valid()
    ensures old(L.next) <= L.next && GrowsExcept(old(L.tables), L.tables, old(L.next))
    ensures o == Raised <==> !ReadArgs(c, old(L.stack))
    ensures o == Raised ==> heap.live == old(heap.live) && heap.calls == old(heap.calls) && bus.calls == old(bus.calls)
    ensures o.Returned? ==>
              && o.n == 2 && heap.live == old(heap.live)
              && |L.stack| == 4 && L.stack[..2] == old(L.stack) && L.stack[2].Integer?
    // either sys_heap refused a block of the message's size: -ENOMEM and nil
    ensures o != Raised && bus.calls == old(bus.calls) ==>
              && o.Returned? && L.stack == old(L.stack) + [Integer(-12), Nil]
              && Refused(old(heap.calls), heap.calls, bus.chans[old(L.stack)[0].chan].msgSize)
    // or there was one call into zbus, for this channel and timeout, whose code is the first
    // result; the second is what the block decodes to, which on success is the channel's cell
    ensures o != Raised && bus.calls != old(bus.calls) ==>
              && var chan := old(L.stack)[0].chan;
              && var err := if o.Returned? then L.stack[2].i else o.err;
              && bus.calls == old(bus.calls) + [WasRead(chan, Timeout(c, old(L.stack)[1]), err)]
              && |block| == bus.chans[chan].msgSize && (err == 0 ==> block == bus.cells[chan])
              && Decodable(bus.chans[chan], block, o.Returned?)
              && (if o.Returned? then
                    Borrowed(old(heap.calls), heap.calls, |block|) && Decoded(L.tables, w, bus.chans[chan], L.stack[3], block)
                  else
                    Kept(old(heap.calls), heap.calls, |block|))
  {
    hide WfChannel, GrowsExcept, Refused, Borrowed, Kept, Timeout, Decoded, Decodable;
    GrowsSame(L.tables, L.next);
    block := [];
    if |L.stack| != 2 || !L.stack[0].ChannelRef? || CheckInteger(c, L.stack[1]).None? {
      return Raised, block;
    }
    var err, defined;
    err, defined, block := ReadMessage(L, w, L.stack[0].chan, Timeout(c, L.stack[1]), heap, bus);
    o := if defined then Returned(2) else Undefined(err);
  }

  lemma {:induction false} ChannelSpan(ch: Channel)
    requires WfChannel(ch)
    ensures ch.descr.Some? ==> Span(ch.descr.value.fields) <= ch.msgSize
  {
  }

  // ---------------------------------------------------------------- observer:wait_msg

  /** Table id holds what was read from some block that starts with the message. */
  ghost predicate ReadFrom(h: Heap, w: nat, fs: seq<Field>, id: nat, message: seq<Byte>)
    requires Span(fs) <= |message|
  {
    exists block: seq<Byte> |
      |message| <= |block| && block[..|message|] == message && Readable(fs, block, 0) :: Rep(h, fs, id, Read(w, fs, block, 0))
  }

  /** If every string meets a NUL before the message ends, the rest of the block does not
      matter: the table holds the message. */
  lemma {:induction false} ReadFromMessage(h: Heap, w: nat, fs: seq<Field>, id: nat, message: seq<Byte>)
    requires Span(fs) <= |message| && Readable(fs, message, 0) && ReadFrom(h, w, fs, id, message)
    ensures Rep(h, fs, id, Read(w, fs, message, 0))
  {
    hide Rep, Readable, Read, Span;
    var block: seq<Byte> :|
      |message| <= |block| && block[..|message|] == message && Readable(fs, block, 0) && Rep(h, fs, id, Read(w, fs, block, 0));
    ReadPrefix(w, fs, block, 0, |message|);
  }

  /** The last two results of a successful wait_msg; defined is false when a string in the block
      has no terminator. */
  method PushReceived(L: State, w: nat, ch: Channel, chan: nat, msg: seq<Byte>) returns (defined: bool)
    requires L.Valid() && WfChannel(ch) && ch.msgSize <= |msg|
    modifies L
    ensures L.Valid() && old(L.next) <= L.next && GrowsExcept(old(L.tables), L.tables, old(L.next))
    ensures ch.descr.Some? ==> Span(ch.descr.value.fields) <= ch.msgSize
    ensures Decodable(ch, msg, defined)
    ensures ch.descr.Some? && Readable(ch.descr.value.fields, msg[..ch.msgSize], 0) ==> defined
    ensures defined ==>
              L.stack == old(L.stack) + [ChannelRef(chan), if ch.descr.Some? then TableRef(old(L.next)) else Nil]
    ensures defined && ch.descr.Some? ==> ReadFrom(L.tables, w, ch.descr.value.fields, old(L.next), msg[..ch.msgSize])
  {
    hide Wf, Readable, Read, Span, Rep, WfChannel;
    ChannelSpan(ch);
    if ch.descr.Some? && Readable(ch.descr.value.fields, msg[..ch.msgSize], 0) {
      ReadPrefix(w, ch.descr.value.fields, msg, 0, ch.msgSize);
    }
    L.Push(ChannelRef(chan));
    defined := ch.descr.None? || Readable(ch.descr.value.fields, msg, 0);
    if defined {
      MsgStructToTable(L, w, ch, msg);
    }
  }

  /** The module's only static variable. */
  class Library {
    var maxChanMsgSize: nat

    /** A zero-initialised static. */
    constructor ()
      ensures maxChanMsgSize == 0
    {
      maxChanMsgSize := 0;
    }

    /** find_max_msg_size. */
    method FindMaxMsgSize(ch: Channel)
      modifies this
      ensures maxChanMsgSize == if ch.msgSize > old(maxChanMsgSize) then ch.msgSize else old(maxChanMsgSize)
    {
      if ch.msgSize > maxChanMsgSize {
        maxChanMsgSize := ch.msgSize;
      }
    }

    /** Every channel's message fits a block of maxChanMsgSize bytes. */
    ghost predicate Covers(chans: seq<Channel>)
      reads this
    {
      forall k | 0 <= k < |chans| :: chans[k].msgSize <= maxChanMsgSize
    }

    /** lua_zbus_init at boot: afterwards the static is the maximum over all channels. */
    method Init(bus: ZBus)
      requires maxChanMsgSize == 0
      modifies this
      ensures Covers(bus.chans)
      ensures maxChanMsgSize == 0 || exists k | 0 <= k < |bus.chans| :: bus.chans[k].msgSize == maxChanMsgSize
    {
      var i := 0;
      while i < |bus.chans|
        invariant i <= |bus.chans|
        invariant Covers(bus.chans[..i])
        invariant maxChanMsgSize == 0 || exists k | 0 <= k < i :: bus.chans[k].msgSize == maxChanMsgSize
      {
        FindMaxMsgSize(bus.chans[i]);
        i := i + 1;
      }
      assert bus.chans[..i] == bus.chans;
    }

    /** observer:wait_msg(timeout_ms) -> err, channel, table: takes the oldest message of the
        observer's FIFO and decodes it with the descriptor of the channel it came from. */
    method SubWaitMsg(L: State, c: Conversions, w: nat, heap: RawHeap, bus: ZBus) returns (o: Outcome)
      requires L.Valid() && heap.Valid() && bus.Valid() && Declared(bus, L.stack) && Covers(bus.chans)
      modifies L, heap, bus
      ensures L.Valid() && heap.Valid() && bus.Valid()
      ensures bus.cells == old(bus.cells) && |bus.queues| == old(|bus.queues|)
      ensures old(L.next) <= L.next && GrowsExcept(old(L.tables), L.tables, old(L.next))
      ensures o == Raised <==> !WaitArgs(c, old(L.stack))
      ensures o == Raised ==> heap.live == old(heap.live) && heap.calls == old(heap.calls) && bus.calls == old(bus.calls)
      ensures o.Returned? ==>
                && o.n == 3 && heap.live == old(heap.live)
                && |L.stack| == |old(L.stack)| + 3 && L.stack[..|old(L.stack)|] == old(L.stack)
                && L.stack[|old(L.stack)|].Integer?
                && var err, queue := L.stack[|old(L.stack)|], old(bus.queues)[old(L.stack)[0].obs];
                   if err == Integer(0) then
                     && DeliveredHead(L.tables, w, bus.chans, queue, L.stack[|old(L.stack)| + 1..])
                     && bus.queues == old(bus.queues)[old(L.stack)[0].obs := queue[1..]]
                   else
                     L.stack[|old(L.stack)| + 1..] == [Nil, Nil] && bus.queues == old(bus.queues)
      // either sys_heap refused a block of the greatest size, or there was one call into zbus,
      // for this observer and timeout, whose code is the first result
      ensures o != Raised ==>
                var obs, n := old(L.stack)[0].obs, |old(L.stack)|;
                if bus.calls == old(bus.calls) then
                  && o.Returned? && L.stack == old(L.stack) + [Integer(-12), Nil, Nil]
                  && Refused(old(heap.calls), heap.calls, maxChanMsgSize)
                else
                  && bus.calls == old(bus.calls)
                       + [Waited(obs, Timeout(c, old(L.stack)[1]), if o.Returned? then L.stack[n].i else o.err)]
                  && (if o.Returned? then Borrowed(old(heap.calls), heap.calls, maxChanMsgSize)
                      else Kept(old(heap.calls), heap.calls, maxChanMsgSize))
      ensures o.Undefined? ==> UnreadableHead(bus.chans, old(bus.queues)[old(L.stack)[0].obs])
    {
      hide DeliveredHead, UnreadableHead, GrowsExcept, Refused, Borrowed, Kept, Timeout;
      GrowsSame(L.tables, L.next);
      if |L.stack| < 2 || !L.stack[0].ObserverRef? || CheckInteger(c, L.stack[1]).None? {
        return Raised;
      }
      var err, defined := WaitMessage(L, w, maxChanMsgSize, L.stack[0].obs, Timeout(c, L.stack[1]), heap, bus);
      o := if defined then Returned(3) else Undefined(err);
    }
  }

  /** The results after the error code of a successful wait_msg: the channel the oldest message
      came from, and its decoded table. */
  ghost predicate DeliveredHead(h: Heap, w: nat, chans: seq<Channel>, queue: seq<Message>, results: seq<Value>)
  {
    && queue != [] && queue[0].chan < |chans| && |results| == 2
    && results[0] == ChannelRef(queue[0].chan)
    && |queue[0].bytes| == chans[queue[0].chan].msgSize
    && match chans[queue[0].chan].descr
       case None => results[1] == Nil
       case Some(d) =>
         && Span(d.fields) <= |queue[0].bytes| && results[1].TableRef?
         && ReadFrom(h, w, d.fields, results[1].id, queue[0].bytes)
  }

  predicate UnreadableHead(chans: seq<Channel>, queue: seq<Message>)
  {
    && queue != [] && queue[0].chan < |chans| && chans[queue[0].chan].descr.Some?
    && var d := chans[queue[0].chan].descr.value;
    && Span(d.fields) <= |queue[0].bytes| && !Readable(d.fields, queue[0].bytes, 0)
  }

  /** The part of sub_wait_msg after its argument checks, with a scratch block of the given
      size; defined is false when a string in the block has no terminator. */
  method WaitMessage(L: State, w: nat, size: nat, obs: nat, timeout: int, heap: RawHeap, bus: ZBus)
    returns (err: int, defined: bool)
    requires L.Valid() && heap.Valid() && bus.Valid() && obs < |bus.queues|
    requires forall k | 0 <= k < |bus.chans| :: bus.chans[k].msgSize <= size
    modifies L, heap, bus
    ensures L.Valid() && heap.Valid() && bus.Valid() && bus.cells == old(bus.cells) && |bus.queues| == old(|bus.queues|)
    ensures old(L.next) <= L.next && GrowsExcept(old(L.tables), L.tables, old(L.next))
    ensures bus.calls == old(bus.calls) ==>
              && defined && err == -12 && L.stack == old(L.stack) + [Integer(-12), Nil, Nil] && bus.queues == old(bus.queues)
              && heap.live == old(heap.live) && Refused(old(heap.calls), heap.calls, size)
    ensures bus.calls != old(bus.calls) ==> bus.calls == old(bus.calls) + [Waited(obs, timeout, err)]
    ensures bus.calls != old(bus.calls) && defined ==>
              && heap.live == old(heap.live) && Borrowed(old(heap.calls), heap.calls, size)
              && |L.stack| == |old(L.stack)| + 3 && L.stack[..|old(L.stack)| + 1] == old(L.stack) + [Integer(err)]
              && var results, queue := L.stack[|old(L.stack)| + 1..], old(bus.queues)[obs];
                 if err == 0 then
                   DeliveredHead(L.tables, w, bus.chans, queue, results) && bus.queues == old(bus.queues)[obs := queue[1..]]
                 else
                   results == [Nil, Nil] && bus.queues == old(bus.queues)
    ensures !defined ==> UnreadableHead(bus.chans, old(bus.queues)[obs]) && Kept(old(heap.calls), heap.calls, size)
  {
    hide DeliveredHead, UnreadableHead, GrowsExcept, Refused, Borrowed, Kept;
    GrowsSame(L.tables, L.next);
    var msg := heap.AllocRaw(size);
    if msg == null {
      IsRefused(old(heap.calls), heap.calls, size);
      L.Push(Integer(-ENOMEM));
      L.Push(Nil);
      L.Push(Nil);
      return -ENOMEM, true;
    }
    IsKept(old(heap.calls), heap.calls, size, msg);
    err, defined := WaitAndPush(L, w, bus, obs, timeout, msg);
    if defined {
      heap.FreeRaw(msg, size);
    }
  }

  /** What is left of it without the scratch block's allocation and release. */
  method WaitAndPush(L: State, w: nat, bus: ZBus, obs: nat, timeout: int, msg: array<Byte>) returns (err: int, defined: bool)
    requires L.Valid() && bus.Valid() && obs < |bus.queues|
    requires forall k | 0 <= k < |bus.chans| :: bus.chans[k].msgSize <= msg.Length
    modifies L, bus, msg
    ensures L.Valid() && bus.Valid() && bus.cells == old(bus.cells) && |bus.queues| == old(|bus.queues|)
    ensures old(L.next) <= L.next && GrowsExcept(old(L.tables), L.tables, old(L.next))
    ensures bus.calls == old(bus.calls) + [Waited(obs, timeout, err)]
    ensures defined ==> |L.stack| == |old(L.stack)| + 3 && L.stack[..|old(L.stack)| + 1] == old(L.stack) + [Integer(err)]
    ensures defined && err == 0 ==>
              && DeliveredHead(L.tables, w, bus.chans, old(bus.queues)[obs], L.stack[|old(L.stack)| + 1..])
              && bus.queues == old(bus.queues)[obs := old(bus.queues)[obs][1..]]
    ensures defined && err != 0 ==> L.stack[|old(L.stack)| + 1..] == [Nil, Nil] && bus.queues == old(bus.queues)
    ensures !defined ==> UnreadableHead(bus.chans, old(bus.queues)[obs])
    ensures err == 0 ==>
              && old(bus.queues)[obs] != [] && old(bus.queues)[obs][0].chan < |bus.chans|
              && Decodable(bus.chans[old(bus.queues)[obs][0].chan], msg[..], defined)
  {
    hide Wf, Readable, Read, Span, Rep, WfChannel;
    var chan;
    err, chan := bus.WaitMsg(obs, msg, timeout);
    L.Push(Integer(err));
    if err != 0 {
      L.Push(Nil);
      L.Push(Nil);
      return err, true;
    }
    assert WfChannel(bus.chans[chan]);
    defined := PushReceived(L, w, bus.chans[chan], chan, msg[..]);
    assert msg[..][..bus.chans[chan].msgSize] == old(bus.queues)[obs][0].bytes;
  }
}
