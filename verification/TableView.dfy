/** How a table in the Lua heap is seen through a descriptor, and how a decoded table is laid
    out in the heap. */
module TableView {
  import opened Bytes
  import opened Wrappers
  import opened Descriptor
  import opened Lens
  import opened LensLaws
  import opened MergeLaws
  import opened LuaState

  // ---------------------------------------------------------------- reading a Lua table

  predicate ConformsField(h: Heap, f: Field, v: Value)
    decreases f
  {
    f.kind.Object? && v != Nil ==> Conforms(h, f.kind.sub, v)
  }

  /** Reading v through the descriptor raises no Lua error: wherever a nested object is
      described and the key is present, there is a value that can be indexed. An empty field
      array reads nothing. */
  predicate Conforms(h: Heap, fs: seq<Field>, v: Value)
    decreases fs
  {
    fs != [] ==> Indexable(h, v) && forall i | 0 <= i < |fs| :: ConformsField(h, fs[i], Index(h, v, fs[i].name))
  }

  /** The typed value the encoder takes for one key; None when it writes nothing. */
  function ViewField(c: Conversions, h: Heap, f: Field, v: Value): Option<Tree>
    requires ConformsField(h, f, v)
    decreases f
  {
    if v == Nil then None else
    match f.kind
    case Int => Some(TInt(ToInteger(c, v)))
    case UInt => Some(TInt(ToInteger(c, v)))
    case StrBuf => (match ToText(c, v) case Some(s) => Some(TStr(s)) case None => None)
    case Bool => Some(TBool(Truthy(v)))
    case Object(sub) => Some(TObj(View(c, h, sub, v)))
  }

  function View(c: Conversions, h: Heap, fs: seq<Field>, v: Value): Table
    requires Conforms(h, fs, v)
    decreases fs
  {
    if fs == [] then map[]
    else
      var f := fs[|fs| - 1];
      assert Conforms(h, fs[..|fs| - 1], v);
      var rest := View(c, h, fs[..|fs| - 1], v);
      match ViewField(c, h, f, Index(h, v, f.name))
      case None => rest
      case Some(x) => rest[f.name := x]
  }

  lemma {:induction false} ViewElsewhere(c: Conversions, h: Heap, fs: seq<Field>, v: Value, x: string)
    requires Conforms(h, fs, v) && forall i | 0 <= i < |fs| :: fs[i].name != x
    ensures x !in View(c, h, fs, v)
  {
    if fs != [] {
      ViewElsewhere(c, h, fs[..|fs| - 1], v, x);
    }
  }

  lemma {:induction false} ViewAt(c: Conversions, h: Heap, fs: seq<Field>, v: Value, i: nat)
    requires Conforms(h, fs, v) && Wf(fs) && i < |fs|
    ensures match ViewField(c, h, fs[i], Index(h, v, fs[i].name))
            case None => fs[i].name !in View(c, h, fs, v)
            case Some(x) => fs[i].name in View(c, h, fs, v) && View(c, h, fs, v)[fs[i].name] == x
  {
    var n := |fs| - 1;
    var init := fs[..n];
    if i < n {
      WfInit(fs);
      ViewAt(c, h, init, v, i);
      assert init[i] == fs[i];
    } else {
      ViewElsewhere(c, h, init, v, fs[n].name);
    }
  }

  lemma {:induction false} ViewTypedField(c: Conversions, h: Heap, f: Field, v: Value)
    requires ConformsField(h, f, v) && WfField(f)
    ensures ViewField(c, h, f, v).Some? ==> TypedField(f, ViewField(c, h, f, v).value)
    decreases f
  {
    if f.kind.Object? && v != Nil {
      ViewTyped(c, h, f.kind.sub, v);
    }
  }

  lemma {:induction false} ViewTyped(c: Conversions, h: Heap, fs: seq<Field>, v: Value)
    requires Conforms(h, fs, v) && Wf(fs)
    ensures Typed(fs, View(c, h, fs, v))
    decreases fs
  {
    forall i | 0 <= i < |fs| && fs[i].name in View(c, h, fs, v)
      ensures TypedField(fs[i], View(c, h, fs, v)[fs[i].name])
    {
      ViewAt(c, h, fs, v, i);
      ViewTypedField(c, h, fs[i], Index(h, v, fs[i].name));
    }
  }

  /** A value that can be indexed but has none of the described keys. */
  predicate Keyless(h: Heap, fs: seq<Field>, v: Value)
  {
    Indexable(h, v) && forall i | 0 <= i < |fs| :: Index(h, v, fs[i].name) == Nil
  }

  lemma {:induction false} ViewKeyless(c: Conversions, h: Heap, fs: seq<Field>, v: Value)
    requires Keyless(h, fs, v)
    ensures Conforms(h, fs, v) && View(c, h, fs, v) == map[]
  {
    if fs != [] {
      ViewKeyless(c, h, fs[..|fs| - 1], v);
    }
  }

  /** A channel, an observer or (with the string library) a string in place of a nested table
      raises no error and stores nothing when its methods have none of the described keys. */
  lemma {:induction false} KeylessObject(c: Conversions, h: Heap, f: Field, v: Value, s: seq<Byte>)
    requires f.kind.Object? && Keyless(h, f.kind.sub, v) && |s| == Extent(f)
    ensures ConformsField(h, f, v) && ViewField(c, h, f, v) == Some(TObj(map[]))
    ensures TypedField(f, TObj(map[])) && PutField(f, TObj(map[]), s) == s
  {
    ViewKeyless(c, h, f.kind.sub, v);
    PutEmpty(f.kind.sub, s);
  }

  // ---------------------------------------------------------------- a decoded table in the heap

  /** v is the Lua value of the tree g; nested tables are newer than table `above`. */
  predicate RepField(h: Heap, f: Field, above: nat, v: Value, g: Tree)
    decreases f
  {
    match g
    case TInt(i) => !f.kind.Object? && v == Integer(i)
    case TStr(s) => !f.kind.Object? && v == String(s)
    case TBool(b) => !f.kind.Object? && v == Boolean(b)
    case TObj(t) => f.kind.Object? && v.TableRef? && above < v.id && Rep(h, f.kind.sub, v.id, t)
  }

  /** Table id of the heap holds exactly the keys and values of g. */
  predicate Rep(h: Heap, fs: seq<Field>, id: nat, g: Table)
    decreases fs
  {
    && id in h
    && h[id].Keys == g.Keys
    && forall i | 0 <= i < |fs| ::
         fs[i].name in g && RepField(h, fs[i], id, h[id][fs[i].name], g[fs[i].name])
  }

  /** h' is h with new tables and possibly another content of table r. */
  predicate GrowsExcept(h: Heap, h': Heap, r: nat)
  {
    forall id | id in h && id != r :: id in h' && h'[id] == h[id]
  }

  lemma {:induction false} GrowsSame(h: Heap, r: nat)
    ensures GrowsExcept(h, h, r)
  {
  }

  lemma {:induction false} RepFieldFrame(h: Heap, h': Heap, f: Field, above: nat, v: Value, g: Tree, r: nat)
    requires RepField(h, f, above, v, g) && GrowsExcept(h, h', r) && r <= above
    ensures RepField(h', f, above, v, g)
    decreases f
  {
    if g.TObj? {
      RepFrame(h, h', f.kind.sub, v.id, g.t, r);
    }
  }

  lemma {:induction false} RepFrame(h: Heap, h': Heap, fs: seq<Field>, id: nat, g: Table, r: nat)
    requires Rep(h, fs, id, g) && GrowsExcept(h, h', r) && r < id
    ensures Rep(h', fs, id, g)
    decreases fs
  {
    forall i | 0 <= i < |fs|
      ensures fs[i].name in g && RepField(h', fs[i], id, h'[id][fs[i].name], g[fs[i].name])
    {
      RepFieldFrame(h, h', fs[i], id, h[id][fs[i].name], g[fs[i].name], r);
    }
  }

  lemma {:induction false} RepViewField(c: Conversions, h: Heap, f: Field, above: nat, v: Value, g: Tree)
    requires RepField(h, f, above, v, g) && FullField(f, g) && WfField(f)
    requires TidyField(f, g)
    ensures ConformsField(h, f, v) && ViewField(c, h, f, v) == Some(g)
    decreases f
  {
    if g.TObj? {
      RepView(c, h, f.kind.sub, v.id, g.t);
    }
  }

  lemma {:induction false} ViewKeys(c: Conversions, h: Heap, fs: seq<Field>, v: Value)
    requires Conforms(h, fs, v)
    ensures View(c, h, fs, v).Keys <= Names(fs)
  {
    if fs != [] {
      ViewKeys(c, h, fs[..|fs| - 1], v);
      NamesInit(fs);
    }
  }

  /** Reading back a table that was laid out in the heap gives the same typed table. */
  lemma {:induction false} RepView(c: Conversions, h: Heap, fs: seq<Field>, id: nat, g: Table)
    requires Rep(h, fs, id, g) && Full(fs, g) && Wf(fs) && Tidy(fs, g)
    ensures Conforms(h, fs, TableRef(id))
    ensures View(c, h, fs, TableRef(id)) == g
    decreases fs
  {
    forall i | 0 <= i < |fs|
      ensures ConformsField(h, fs[i], Index(h, TableRef(id), fs[i].name))
      ensures ViewField(c, h, fs[i], Index(h, TableRef(id), fs[i].name)) == Some(g[fs[i].name])
    {
      assert TidyField(fs[i], g[fs[i].name]);
      RepViewField(c, h, fs[i], id, h[id][fs[i].name], g[fs[i].name]);
    }
    var t := View(c, h, fs, TableRef(id));
    ViewKeys(c, h, fs, TableRef(id));
    forall x | x in Names(fs) ensures x in t && t[x] == g[x] {
      var i :| 0 <= i < |fs| && fs[i].name == x;
      ViewAt(c, h, fs, TableRef(id), i);
    }
  }
}
