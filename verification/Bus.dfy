/** What the bindings rely on from zbus: one message cell per channel and one FIFO per message
    subscriber. Outcomes the kernel decides (errors, delivery) are left open. */
module Bus {
  import opened Bytes
  import opened Wrappers
  import opened Descriptor

  /** include/luaz_msg_descr.h: struct lua_msg_descr. */
  datatype MsgDescr = MsgDescr(fields: seq<Field>, msgSize: nat)

  /** descr is the channel's user data. */
  datatype Channel = Channel(msgSize: nat, descr: Option<MsgDescr>)

  datatype Message = Message(chan: nat, bytes: seq<Byte>)

  /** A call into zbus and the code it returned; timeouts are in milliseconds. */
  datatype BusCall =
    | Published(chan: nat, bytes: seq<Byte>, timeout: int, err: int)
    | WasRead(chan: nat, timeout: int, err: int)
    | Waited(obs: nat, timeout: int, err: int)

  /** The descriptor describes the channel's own message struct. */
  predicate WfChannel(ch: Channel)
  {
    ch.descr.Some? ==>
      && ch.descr.value.msgSize == ch.msgSize
      && Wf(ch.descr.value.fields)
      && Span(ch.descr.value.fields) <= ch.msgSize
  }

  class ZBus {
    const chans: seq<Channel>
    var cells: seq<seq<Byte>>
    var queues: seq<seq<Message>>
    /** Every call into zbus, in order. */
    ghost var calls: seq<BusCall>

    ghost predicate Valid()
      reads this
    {
      && |cells| == |chans|
      && (forall c | 0 <= c < |chans| :: WfChannel(chans[c]) && |cells[c]| == chans[c].msgSize)
      && (forall o, k | 0 <= o < |queues| && 0 <= k < |queues[o]| ::
            queues[o][k].chan < |chans| && |queues[o][k].bytes| == chans[queues[o][k].chan].msgSize)
    }

    constructor (chans: seq<Channel>, cells: seq<seq<Byte>>, observers: nat)
      requires |cells| == |chans|
      requires forall c | 0 <= c < |chans| :: WfChannel(chans[c]) && |cells[c]| == chans[c].msgSize
      ensures Valid() && this.chans == chans && this.cells == cells && |queues| == observers && calls == []
    {
      this.calls := [];
      this.chans := chans;
      this.cells := cells;
      this.queues := seq(observers, _ => []);
    }

    /** zbus_chan_pub: on success the cell holds the message; a publish that reports an error
        may have replaced the cell already. Each subscriber gets the message at most once. */
    method Publish(c: nat, msg: array<Byte>, timeout: int) returns (err: int)
      requires Valid() && c < |chans| && msg.Length == chans[c].msgSize
      modifies this
      ensures Valid() && |queues| == old(|queues|)
      ensures calls == old(calls) + [Published(c, msg[..], timeout, err)]
      ensures err == 0 ==> cells == old(cells)[c := msg[..]]
      ensures err != 0 ==> cells == old(cells) || cells == old(cells)[c := msg[..]]
      ensures forall o | 0 <= o < |queues| ::
                queues[o] == old(queues[o]) || queues[o] == old(queues[o]) + [Message(c, msg[..])]
    {
      if * {
        calls := calls + [Published(c, msg[..], timeout, -11)];
        return -11;
      }
      cells := cells[c := msg[..]];
      var o := 0;
      while o < |queues|
        invariant Valid() && |queues| == old(|queues|) && o <= |queues|
        invariant cells == old(cells)[c := msg[..]] && calls == old(calls)
        invariant forall p | 0 <= p < |queues| ::
                    queues[p] == old(queues[p]) || (p < o && queues[p] == old(queues[p]) + [Message(c, msg[..])])
      {
        if * {
          queues := queues[o := queues[o] + [Message(c, msg[..])]];
        }
        o := o + 1;
      }
      if * {
        err := 0;
      } else {
        err := -12;
      }
      calls := calls + [Published(c, msg[..], timeout, err)];
    }

    /** zbus_chan_read. */
    method Read(c: nat, msg: array<Byte>, timeout: int) returns (err: int)
      requires Valid() && c < |chans| && msg.Length == chans[c].msgSize
      modifies this`calls, msg
      ensures Valid() && calls == old(calls) + [WasRead(c, timeout, err)]
      ensures err == 0 ==> msg[..] == cells[c]
      ensures err != 0 ==> msg[..] == old(msg[..])
    {
      if * {
        calls := calls + [WasRead(c, timeout, -11)];
        return -11;
      }
      forall k | 0 <= k < msg.Length {
        msg[k] := cells[c][k];
      }
      calls := calls + [WasRead(c, timeout, 0)];
      err := 0;
    }

    /** zbus_sub_wait_msg: takes the oldest message of the observer's FIFO; the caller's buffer
        must have room for it. */
    method WaitMsg(o: nat, msg: array<Byte>, timeout: int) returns (err: int, c: nat)
      requires Valid() && o < |queues|
      requires forall k | 0 <= k < |queues[o]| :: |queues[o][k].bytes| <= msg.Length
      modifies this, msg
      ensures Valid() && |queues| == old(|queues|) && cells == old(cells)
      ensures calls == old(calls) + [Waited(o, timeout, err)]
      ensures err == 0 ==>
                && old(queues[o]) != []
                && c == old(queues[o])[0].chan < |chans|
                && chans[c].msgSize <= msg.Length
                && msg[..chans[c].msgSize] == old(queues[o])[0].bytes
                && queues == old(queues)[o := old(queues[o])[1..]]
      ensures err != 0 ==> queues == old(queues) && msg[..] == old(msg[..])
    {
      c := 0;
      if queues[o] == [] {
        calls := calls + [Waited(o, timeout, -11)];
        return -11, c;
      }
      if * {
        calls := calls + [Waited(o, timeout, -11)];
        return -11, c;
      }
      var m := queues[o][0];
      c := m.chan;
      forall k | 0 <= k < |m.bytes| {
        msg[k] := m.bytes[k];
      }
      assert forall k | 0 <= k < |queues[o][1..]| :: queues[o][1..][k] == queues[o][k + 1];
      queues := queues[o := queues[o][1..]];
      calls := calls + [Waited(o, timeout, 0)];
      err := 0;
    }
  }
}
