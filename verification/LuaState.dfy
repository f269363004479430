/** The part of the Lua C API the bindings use: a value stack and a heap of tables. Tables are
    references, so they may be shared between values and may even contain themselves. Channel
    and observer userdata and strings can be indexed as well, through their metatables; the
    tables themselves have none. */
module LuaState {
  import opened Bytes
  import opened Wrappers

  datatype Value =
    | Nil
    | Boolean(b: bool)
    | Integer(i: int)
    | String(s: seq<Byte>)
    | TableRef(id: nat)
    | Function(code: nat)
    | ChannelRef(chan: nat)
    | ObserverRef(obs: nat)

  type Heap = map<nat, map<string, Value>>

  predicate IsTable(h: Heap, v: Value)
  {
    v.TableRef? && v.id in h
  }

  /** The tables that the __index of a metatable leads to: luaopen_zbus makes both userdata
      metatables their own __index; the third is there once the string library is loaded. */
  const CHANNEL_METHODS: nat := 0
  const OBSERVER_METHODS: nat := 1
  const STRING_METHODS: nat := 2
  const RESERVED: nat := 3

  /** The table in which indexing a value looks its key up. */
  function Holder(v: Value): Option<nat>
  {
    match v
    case TableRef(id) => Some(id)
    case ChannelRef(_) => Some(CHANNEL_METHODS)
    case ObserverRef(_) => Some(OBSERVER_METHODS)
    case String(_) => Some(STRING_METHODS)
    case _ => None
  }

  /** Indexing v raises no Lua error. */
  predicate Indexable(h: Heap, v: Value)
  {
    Holder(v).Some? && Holder(v).value in h
  }

  /** Indexing a value by a string key; an absent key reads as nil. */
  function Index(h: Heap, v: Value, name: string): Value
    requires Indexable(h, v)
  {
    var t := h[Holder(v).value];
    if name in t then t[name] else Nil
  }

  /** Lua's conversions between numbers and strings, which live in the Lua core. */
  datatype Conversions = Conversions(toInteger: seq<Byte> -> Option<int>, toText: int -> seq<Byte>)

  /** lua_tointeger: 0 for everything that is not a number or a numeral. */
  function ToInteger(c: Conversions, v: Value): int
  {
    match v
    case Integer(i) => i
    case String(s) => (match c.toInteger(s) case Some(i) => i case None => 0)
    case _ => 0
  }

  /** lua_tostring: NULL (None) for everything that is not a string or a number. */
  function ToText(c: Conversions, v: Value): Option<seq<Byte>>
  {
    match v
    case String(s) => Some(s)
    case Integer(i) => Some(c.toText(i))
    case _ => None
  }

  /** lua_toboolean. */
  predicate Truthy(v: Value)
  {
    v != Nil && v != Boolean(false)
  }

  class State {
    var stack: seq<Value>
    var tables: Heap
    var next: nat
    /** The greatest height the stack has had. */
    ghost var peak: nat

    ghost predicate Valid()
      reads this
    {
      |stack| <= peak && RESERVED <= next && forall id | id in tables :: id < next
    }

    /** methods holds the method tables of the libraries that are loaded. */
    constructor (args: seq<Value>, methods: Heap)
      requires forall id | id in methods :: id < RESERVED
      ensures Valid() && stack == args && tables == methods && peak == |args|
    {
      stack, tables, next, peak := args, methods, RESERVED, |args|;
    }

    /** Lua calls a C function: it sees a frame that holds its arguments only. */
    method Frame(args: seq<Value>)
      requires Valid()
      modifies this
      ensures Valid() && stack == args && tables == old(tables) && next == old(next)
    {
      stack := args;
      peak := if peak < |stack| then |stack| else peak;
    }

    method Push(v: Value)
      requires Valid()
      modifies this
      ensures Valid()
      ensures stack == old(stack) + [v] && tables == old(tables) && next == old(next)
      ensures peak == if old(peak) < |stack| then |stack| else old(peak)
    {
      stack := stack + [v];
      peak := if peak < |stack| then |stack| else peak;
    }

    method Pop(n: nat)
      requires Valid() && n <= |stack|
      modifies this
      ensures Valid()
      ensures stack == old(stack)[..|old(stack)| - n] && tables == old(tables) && next == old(next)
      ensures peak == old(peak)
    {
      stack := stack[..|stack| - n];
    }

    /** lua_newtable. */
    method NewTable()
      requires Valid()
      modifies this
      ensures Valid()
      ensures stack == old(stack) + [TableRef(old(next))] && next == old(next) + 1
      ensures tables == old(tables)[old(next) := map[]]
      ensures peak == if old(peak) < |stack| then |stack| else old(peak)
    {
      tables := tables[next := map[]];
      next := next + 1;
      Push(TableRef(next - 1));
    }

    /** lua_setfield(L, -2, name): pops a value into the table below it. */
    method SetField(name: string)
      requires Valid() && |stack| >= 2 && IsTable(tables, stack[|stack| - 2])
      modifies this
      ensures Valid()
      ensures stack == old(stack)[..|old(stack)| - 1] && next == old(next) && peak == old(peak)
      ensures var id, v := old(stack)[|old(stack)| - 2].id, old(stack)[|old(stack)| - 1];
              tables == old(tables)[id := if v == Nil then old(tables)[id] - {name} else old(tables)[id][name := v]]
    {
      var id, v := stack[|stack| - 2].id, stack[|stack| - 1];
      tables := tables[id := if v == Nil then tables[id] - {name} else tables[id][name := v]];
      stack := stack[..|stack| - 1];
    }

    /** lua_getfield(L, idx, name) on an indexable value: pushes the value of the key. */
    method GetField(idx: nat, name: string)
      requires Valid() && 1 <= idx <= |stack| && Indexable(tables, stack[idx - 1])
      modifies this
      ensures Valid()
      ensures tables == old(tables) && next == old(next)
      ensures stack == old(stack) + [Index(old(tables), old(stack)[idx - 1], name)]
      ensures peak == if old(peak) < |stack| then |stack| else old(peak)
    {
      Push(Index(tables, stack[idx - 1], name));
    }
  }
}
