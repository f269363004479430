/** luaz_require of src/luaz_utils.c: a module cache with preloaded loaders only. Loaders may
    require other modules before they return. */
module Require {
  import opened Wrappers

  /** What a loader can return; Other stands for every value but nil and false. */
  datatype Val = Nil | False | True | Other(id: int)

  predicate Truthy(v: Val)
  {
    v != Nil && v != False
  }

  /** A loader requires its dependencies in order and then returns its result. One that raises
      an error of its own is one whose last dependency cannot be had. */
  datatype Loader = Loader(deps: seq<string>, result: Val)

  /** What ends up in _LOADED: nil is stored as true. */
  function Stored(v: Val): Val
  {
    if v == Nil then True else v
  }

  /** The module had a value other than nil and false before any loader ran. */
  predicate FromStart(base: map<string, Val>, n: string)
  {
    n in base && base[n] != Nil && base[n] != False
  }

  /** v is what requiring a module with this loader yields. */
  predicate ValueOf(loader: Loader, v: Val)
  {
    (loader.result != Nil ==> v == loader.result) && (loader.result == Nil ==> v == True)
  }

  /** A rank that falls along every dependency: the preload graph has no cycle. */
  ghost predicate Acyclic(preload: map<string, Loader>, rank: map<string, nat>)
  {
    forall n, d | n in preload && d in preload[n].deps && d in preload ::
      n in rank && d in rank && rank[d] < rank[n]
  }

  ghost function RankOf(rank: map<string, nat>, n: string): nat
  {
    if n in rank then rank[n] else 0
  }

  /** The module can be had: it was there from the start, or it has a loader all of whose
      dependencies can be had. */
  ghost predicate Resolves(preload: map<string, Loader>, rank: map<string, nat>, base: map<string, Val>, n: string)
    requires Acyclic(preload, rank)
    decreases n in preload, RankOf(rank, n)
  {
    (n in base && Truthy(base[n])) ||
    (n in preload && forall d | d in preload[n].deps :: Resolves(preload, rank, base, d))
  }

  predicate Cached(loaded: map<string, Val>, n: string)
  {
    n in loaded && Truthy(loaded[n])
  }

  predicate Settled(base: map<string, Val>, log: seq<string>, n: string)
  {
    Cached(base, n) || n in log
  }

  /** The invariant of what has finished: base is what _LOADED held at first, log the loaders
      that have returned, in order. */
  ghost predicate Consistent(preload: map<string, Loader>, rank: map<string, nat>, base: map<string, Val>,
                             loaded: map<string, Val>, log: seq<string>)
  {
    && Acyclic(preload, rank)
    // what is cached was there from the start or comes from its loader
    && (forall n | Cached(loaded, n) :: Resolves(preload, rank, base, n)
          && (if Cached(base, n) then loaded[n] == base[n]
              else n in log && n in preload && loaded[n] == Stored(preload[n].result)))
    && (forall n | Cached(base, n) :: Cached(loaded, n))
    // a finished loader is cached unless it returned false
    && (forall k | 0 <= k < |log| :: log[k] in preload && (preload[log[k]].result != False ==> Cached(loaded, log[k])))
    // dependencies finish before their dependents
    && (forall k, d | 0 <= k < |log| && d in preload[log[k]].deps :: Settled(base, log[..k], d))
    // no loader that does not return false returns twice
    && (forall i, j | 0 <= i < j < |log| && log[i] == log[j] :: preload[log[i]].result == False)
  }

  /** From one state to a later one, only modules ranked at most r were run or stored, and
      nothing that was cached has changed. */
  ghost predicate Grown(rank: map<string, nat>, r: nat, loaded: map<string, Val>, log: seq<string>,
                        loaded': map<string, Val>, log': seq<string>)
  {
    && log <= log'
    && (forall n | RankOf(rank, n) > r ::
          (n in loaded' <==> n in loaded) && (n in loaded ==> loaded'[n] == loaded[n]))
    && (forall n | Cached(loaded, n) :: n in loaded' && loaded'[n] == loaded[n])
  }

  lemma {:induction false} GrownTrans(rank: map<string, nat>, r: nat, r': nat,
                                      a: map<string, Val>, la: seq<string>, b: map<string, Val>, lb: seq<string>,
                                      c: map<string, Val>, lc: seq<string>)
    requires Grown(rank, r, a, la, b, lb) && Grown(rank, r', b, lb, c, lc) && r' <= r
    ensures Grown(rank, r, a, la, c, lc)
  {
  }

  /** Storing a loader's result once its dependencies are settled keeps the invariant. */
  lemma {:induction false} StoreKeeps(preload: map<string, Loader>, rank: map<string, nat>, base: map<string, Val>,
                                      loaded: map<string, Val>, log: seq<string>, name: string)
    requires Consistent(preload, rank, base, loaded, log)
    requires name in preload && !Cached(loaded, name)
    requires forall d | d in preload[name].deps :: Resolves(preload, rank, base, d) && Settled(base, log, d)
    ensures Consistent(preload, rank, base, loaded[name := Stored(preload[name].result)], log + [name])
  {
    var loaded', log' := loaded[name := Stored(preload[name].result)], log + [name];
    assert Resolves(preload, rank, base, name);
    hide Resolves;
    forall k, d | 0 <= k < |log'| && d in preload[log'[k]].deps ensures Settled(base, log'[..k], d) {
      assert log'[..k] == log[..k];
      if k == |log| {
        assert log[..k] == log;
      }
    }
    forall n | Cached(loaded', n) && n != name
      ensures Resolves(preload, rank, base, n)
      ensures if Cached(base, n) then loaded'[n] == base[n]
              else n in log' && n in preload && loaded'[n] == Stored(preload[n].result)
    {
      assert Cached(loaded, n);
    }
  }

  lemma {:induction false} GrownStore(rank: map<string, nat>, loaded: map<string, Val>, log: seq<string>,
                                      name: string, v: Val)
    requires !Cached(loaded, name)
    ensures Grown(rank, RankOf(rank, name), loaded, log, loaded[name := v], log + [name])
  {
  }

  /** A module whose loader has been started and is no longer running: it is cached, or its
      loader returned false, or it cannot be had. */
  ghost predicate Over(preload: map<string, Loader>, rank: map<string, nat>, base: map<string, Val>,
                       loaded: map<string, Val>, n: string)
    requires Acyclic(preload, rank)
  {
    && n in preload && !Cached(base, n)
    && (Cached(loaded, n) || preload[n].result == False || !Resolves(preload, rank, base, n))
  }

  /** No loader ranked below the bound is running, apart perhaps from that of `running`. */
  ghost predicate Quiet(preload: map<string, Loader>, rank: map<string, nat>, base: map<string, Val>,
                        loaded: map<string, Val>, starts: seq<string>, bound: nat, running: set<string>)
    requires Acyclic(preload, rank)
  {
    forall n | n in starts && n !in running && RankOf(rank, n) <= bound :: Over(preload, rank, base, loaded, n)
  }

  /** Only the loader of a module that cannot be had, or that returns false, is started twice. */
  ghost predicate StartedOnce(preload: map<string, Loader>, rank: map<string, nat>, base: map<string, Val>, starts: seq<string>)
    requires Acyclic(preload, rank)
  {
    forall i, j | 0 <= i < j < |starts| && starts[i] == starts[j] ::
      && starts[i] in preload
      && (preload[starts[i]].result == False || !Resolves(preload, rank, base, starts[i]))
  }

  /** From one list of starts to a later one: the new ones are ranked at most r. */
  ghost predicate Started(rank: map<string, nat>, r: int, starts: seq<string>, starts': seq<string>)
  {
    starts <= starts' && forall k | |starts| <= k < |starts'| :: RankOf(rank, starts'[k]) <= r
  }

  /** No loader is running. */
  ghost predicate AllOver(preload: map<string, Loader>, rank: map<string, nat>, base: map<string, Val>,
                          loaded: map<string, Val>, starts: seq<string>)
    requires Acyclic(preload, rank)
  {
    forall n | n in starts :: Over(preload, rank, base, loaded, n)
  }

  // ---------------------------------------------------------------- what a call does to the starts

  lemma {:induction false} StartKeeps(preload: map<string, Loader>, rank: map<string, nat>, base: map<string, Val>,
                                      loaded: map<string, Val>, starts: seq<string>, name: string)
    requires Acyclic(preload, rank) && StartedOnce(preload, rank, base, starts)
    requires name in preload && !Cached(loaded, name)
    requires Quiet(preload, rank, base, loaded, starts, RankOf(rank, name), {})
    ensures StartedOnce(preload, rank, base, starts + [name])
    ensures Quiet(preload, rank, base, loaded, starts + [name], RankOf(rank, name), {name})
  {
    hide Resolves;
    var starts' := starts + [name];
    forall i, j | 0 <= i < j < |starts'| && starts'[i] == starts'[j]
      ensures starts'[i] in preload
      ensures preload[starts'[i]].result == False || !Resolves(preload, rank, base, starts'[i])
    {
      if j == |starts| {
        assert starts[i] == name && Over(preload, rank, base, loaded, name);
      } else {
        assert starts[i] == starts[j];
      }
    }
  }

  /** A dependency may be required: whatever is running is ranked above it. */
  lemma {:induction false} QuietBelow(preload: map<string, Loader>, rank: map<string, nat>, base: map<string, Val>,
                                      loaded: map<string, Val>, starts: seq<string>, name: string, dep: string)
    requires Acyclic(preload, rank) && RankOf(rank, dep) < RankOf(rank, name)
    requires Quiet(preload, rank, base, loaded, starts, RankOf(rank, name), {name})
    ensures Quiet(preload, rank, base, loaded, starts, RankOf(rank, dep), {})
  {
    hide Over;
  }

  lemma {:induction false} OverKept(preload: map<string, Loader>, rank: map<string, nat>, base: map<string, Val>,
                                    r: nat, a: map<string, Val>, la: seq<string>, b: map<string, Val>, lb: seq<string>, n: string)
    requires Acyclic(preload, rank) && Grown(rank, r, a, la, b, lb) && Over(preload, rank, base, a, n)
    ensures Over(preload, rank, base, b, n)
  {
    hide Resolves;
  }

  /** After a dependency the loaders ranked up to the dependent's are over again. */
  lemma {:induction false} QuietAfter(preload: map<string, Loader>, rank: map<string, nat>, base: map<string, Val>,
                                      name: string, dep: string, a: map<string, Val>, la: seq<string>, sa: seq<string>,
                                      b: map<string, Val>, lb: seq<string>, sb: seq<string>)
    requires Acyclic(preload, rank) && RankOf(rank, dep) < RankOf(rank, name)
    requires Quiet(preload, rank, base, a, sa, RankOf(rank, name), {name})
    requires Grown(rank, RankOf(rank, dep), a, la, b, lb) && Started(rank, RankOf(rank, dep), sa, sb)
    requires Quiet(preload, rank, base, b, sb, RankOf(rank, dep), {})
    ensures Quiet(preload, rank, base, b, sb, RankOf(rank, name), {name})
  {
    hide Over, Grown;
    forall n | n in sb && n != name && RankOf(rank, n) <= RankOf(rank, name) ensures Over(preload, rank, base, b, n) {
      if n in sa {
        OverKept(preload, rank, base, RankOf(rank, dep), a, la, b, lb, n);
      } else {
        var k := NewStart(sa, sb, n);
      }
    }
  }

  lemma {:induction false} NewStart(sa: seq<string>, sb: seq<string>, n: string) returns (k: nat)
    requires sa <= sb && n in sb && n !in sa
    ensures |sa| <= k < |sb| && sb[k] == n
  {
    k :| k < |sb| && sb[k] == n;
    assert forall j | 0 <= j < |sa| :: sa[j] == sb[j];
  }

  lemma {:induction false} QuietOver(preload: map<string, Loader>, rank: map<string, nat>, base: map<string, Val>,
                                     loaded: map<string, Val>, starts: seq<string>, name: string)
    requires Acyclic(preload, rank) && Over(preload, rank, base, loaded, name)
    requires Quiet(preload, rank, base, loaded, starts, RankOf(rank, name), {name})
    ensures Quiet(preload, rank, base, loaded, starts, RankOf(rank, name), {})
  {
    hide Over;
  }

  lemma {:induction false} QuietStore(preload: map<string, Loader>, rank: map<string, nat>, base: map<string, Val>,
                                      loaded: map<string, Val>, log: seq<string>, starts: seq<string>, name: string)
    requires Acyclic(preload, rank) && name in preload && !Cached(loaded, name) && !Cached(base, name)
    requires Quiet(preload, rank, base, loaded, starts, RankOf(rank, name), {name})
    ensures Quiet(preload, rank, base, loaded[name := Stored(preload[name].result)], starts, RankOf(rank, name), {})
  {
    hide Resolves;
    var loaded' := loaded[name := Stored(preload[name].result)];
    forall n | n in starts && RankOf(rank, n) <= RankOf(rank, name) ensures Over(preload, rank, base, loaded', n) {
      if n != name {
        assert Over(preload, rank, base, loaded, n);
      }
    }
  }

  lemma {:induction false} StartedTrans(rank: map<string, nat>, r: int, r': int, a: seq<string>, b: seq<string>, c: seq<string>)
    requires Started(rank, r, a, b) && Started(rank, r', b, c) && r' <= r
    ensures Started(rank, r, a, c)
  {
  }

  lemma {:induction false} StartedFirst(rank: map<string, nat>, starts: seq<string>, name: string, starts': seq<string>)
    requires Started(rank, RankOf(rank, name) - 1, starts + [name], starts')
    ensures Started(rank, RankOf(rank, name), starts, starts')
    ensures |starts'| > |starts| && starts'[|starts|] == name
    ensures forall k | |starts| < k < |starts'| :: RankOf(rank, starts'[k]) < RankOf(rank, name)
  {
    assert (starts + [name])[|starts|] == name;
    assert starts <= starts + [name];
  }

  lemma {:induction false} AllOverKept(preload: map<string, Loader>, rank: map<string, nat>, base: map<string, Val>,
                                       r: nat, a: map<string, Val>, la: seq<string>, sa: seq<string>,
                                       b: map<string, Val>, lb: seq<string>, sb: seq<string>)
    requires Acyclic(preload, rank) && AllOver(preload, rank, base, a, sa)
    requires Grown(rank, r, a, la, b, lb) && Started(rank, r, sa, sb)
    requires Quiet(preload, rank, base, b, sb, r, {}) || sa == sb
    ensures AllOver(preload, rank, base, b, sb)
  {
    hide Over, Grown;
    forall n | n in sb ensures Over(preload, rank, base, b, n) {
      if n in sa {
        OverKept(preload, rank, base, r, a, la, b, lb, n);
      } else {
        var k := NewStart(sa, sb, n);
      }
    }
  }

  lemma {:induction false} AllOverQuiet(preload: map<string, Loader>, rank: map<string, nat>, base: map<string, Val>,
                                        loaded: map<string, Val>, starts: seq<string>, bound: nat)
    requires Acyclic(preload, rank) && AllOver(preload, rank, base, loaded, starts)
    ensures Quiet(preload, rank, base, loaded, starts, bound, {})
  {
    hide Over;
  }

  class Registry {
    const preload: map<string, Loader>
    var loaded: map<string, Val>
    var log: seq<string>
    /** The loaders that have been called, in order. */
    var starts: seq<string>
    ghost const rank: map<string, nat>
    ghost const base: map<string, Val>

    ghost predicate Valid()
      reads this
    {
      Consistent(preload, rank, base, loaded, log) && StartedOnce(preload, rank, base, starts)
    }

    /** No loader is running: the state a script finds between its calls. */
    ghost predicate Idle()
      requires Acyclic(preload, rank)
      reads this
    {
      AllOver(preload, rank, base, loaded, starts)
    }

    constructor (preload: map<string, Loader>, loaded: map<string, Val>, ghost rank: map<string, nat>)
      requires Acyclic(preload, rank)
      ensures Valid() && Idle() && this.preload == preload && this.loaded == loaded && log == [] && starts == []
      ensures base == loaded && this.rank == rank
    {
      this.preload, this.loaded, this.log, this.starts, this.rank, this.base := preload, loaded, [], [], rank, loaded;
    }

    /** require(name): Some(value), or None when the error "module not found" is raised here or
        in a loader. It may be called while other loaders, which led to it, are running. */
    method Require(name: string) returns (r: Option<Val>)
      requires Valid()
      requires name in preload ==> Quiet(preload, rank, base, loaded, starts, RankOf(rank, name), {})
      modifies this
      ensures Valid() && Grown(rank, RankOf(rank, name), old(loaded), old(log), loaded, log)
      ensures Started(rank, RankOf(rank, name), old(starts), starts)
      ensures name in preload ==> Quiet(preload, rank, base, loaded, starts, RankOf(rank, name), {})
      // it succeeds exactly when the module can be had
      ensures r.Some? <==> Resolves(preload, rank, base, name)
      // a cached module is returned and nothing runs; nor does anything for an unknown one
      ensures Cached(old(loaded), name) ==> r == Some(old(loaded)[name])
      ensures Cached(old(loaded), name) || name !in preload ==>
                loaded == old(loaded) && log == old(log) && starts == old(starts)
      // otherwise its loader is started, once, and then only loaders of lower rank are
      ensures !Cached(old(loaded), name) && name in preload ==>
                && |starts| > |old(starts)| && starts[|old(starts)|] == name
                && (forall k | |old(starts)| < k < |starts| :: RankOf(rank, starts[k]) < RankOf(rank, name))
      // and if nothing goes wrong it finishes last and its result is stored
      ensures r.Some? && !Cached(old(loaded), name) ==>
                && name in preload && name in loaded
                && r == Some(loaded[name]) && ValueOf(preload[name], loaded[name])
                && |log| > |old(log)| && log[|log| - 1] == name
      decreases name in preload, RankOf(rank, name), 1
    {
      hide Consistent, Grown, Resolves, Over, Quiet, StartedOnce, Started;
      CachedResolves(preload, rank, base, loaded, log, name);
      GrownSame(rank, RankOf(rank, name), loaded, log);
      StartedSame(rank, RankOf(rank, name), starts);
      if name in loaded && Truthy(loaded[name]) {
        return Some(loaded[name]);
      }
      ResolvesIff(preload, rank, base, name);
      if name !in preload {
        return None;
      }
      var loader := preload[name];
      StartKeeps(preload, rank, base, loaded, starts, name);
      starts := starts + [name];
      ghost var below := RankOf(rank, name) - 1;
      StartedSame(rank, below, starts);
      var i := 0;
      while i < |loader.deps|
        invariant i <= |loader.deps| && Valid() && !Cached(loaded, name)
        invariant Grown(rank, RankOf(rank, name), old(loaded), old(log), loaded, log)
        invariant Started(rank, below, old(starts) + [name], starts)
        invariant Quiet(preload, rank, base, loaded, starts, RankOf(rank, name), {name})
        invariant forall k | 0 <= k < i :: Resolves(preload, rank, base, loader.deps[k]) && Settled(base, log, loader.deps[k])
      {
        var v := RequireDependency(name, loader.deps[i], old(loaded), old(log), old(starts));
        if v.None? {
          NotCached(preload, rank, base, loaded, name);
          QuietOver(preload, rank, base, loaded, starts, name);
          StartedFirst(rank, old(starts), name, starts);
          return None;
        }
        i := i + 1;
      }
      CachedResolves(preload, rank, base, loaded, log, name);
      StoreKeeps(preload, rank, base, loaded, log, name);
      GrownStore(rank, loaded, log, name, Stored(loader.result));
      GrownTrans(rank, RankOf(rank, name), RankOf(rank, name), old(loaded), old(log), loaded, log,
                 loaded[name := Stored(loader.result)], log + [name]);
      GrownLonger(rank, RankOf(rank, name), old(loaded), old(log), loaded, log);
      QuietStore(preload, rank, base, loaded, log, starts, name);
      StartedFirst(rank, old(starts), name, starts);
      loaded := loaded[name := Stored(loader.result)];
      log := log + [name];
      r := Some(loaded[name]);
    }

    /** What the loader of `name` does for one dependency; loaded0, log0 and starts0 are from
        before that loader was started. */
    method RequireDependency(name: string, dep: string, ghost loaded0: map<string, Val>, ghost log0: seq<string>,
                             ghost starts0: seq<string>)
      returns (v: Option<Val>)
      requires Valid() && name in preload && dep in preload[name].deps && !Cached(loaded, name)
      requires Grown(rank, RankOf(rank, name), loaded0, log0, loaded, log)
      requires Started(rank, RankOf(rank, name) - 1, starts0 + [name], starts)
      requires Quiet(preload, rank, base, loaded, starts, RankOf(rank, name), {name})
      modifies this
      ensures Valid() && !Cached(loaded, name)
      ensures Grown(rank, RankOf(rank, name), loaded0, log0, loaded, log)
      ensures Started(rank, RankOf(rank, name) - 1, starts0 + [name], starts)
      ensures Quiet(preload, rank, base, loaded, starts, RankOf(rank, name), {name})
      ensures v.Some? <==> Resolves(preload, rank, base, dep)
      ensures v.Some? ==> Settled(base, log, dep)
      ensures forall d | Settled(base, old(log), d) :: Settled(base, log, d)
      decreases true, RankOf(rank, name), 0
    {
      hide Consistent, Grown, Resolves, Over, Quiet, StartedOnce, Started;
      ghost var before, logBefore, startsBefore := loaded, log, starts;
      CachedResolves(preload, rank, base, loaded, log, dep);
      RankFalls(preload, rank, name, dep);
      if dep in preload {
        QuietBelow(preload, rank, base, loaded, starts, name, dep);
      }
      v := Require(dep);
      DependencyDone(preload, rank, base, name, dep, loaded0, log0, before, logBefore, loaded, log);
      if dep in preload {
        QuietAfter(preload, rank, base, name, dep, before, logBefore, startsBefore, loaded, log, starts);
        StartedTrans(rank, RankOf(rank, name) - 1, RankOf(rank, dep), starts0 + [name], startsBefore, starts);
      }
      CachedResolves(preload, rank, base, loaded, log, dep);
    }
  }

  lemma {:induction false} NotCached(preload: map<string, Loader>, rank: map<string, nat>, base: map<string, Val>,
                                     loaded: map<string, Val>, name: string)
    requires Acyclic(preload, rank) && name in preload && !Resolves(preload, rank, base, name)
    ensures Over(preload, rank, base, loaded, name)
  {
  }

  lemma {:induction false} StartedSame(rank: map<string, nat>, r: int, starts: seq<string>)
    ensures Started(rank, r, starts, starts)
  {
  }

  /** require called by a script, with no loader running: none is running afterwards. */
  method ScriptRequire(r: Registry, name: string) returns (v: Option<Val>)
    requires r.Valid() && r.Idle()
    modifies r
    ensures r.Valid() && r.Idle() && old(r.starts) <= r.starts && old(r.log) <= r.log
    ensures v.Some? <==> Resolves(r.preload, r.rank, r.base, name)
    // the value is the one the module had from the start, or its loader's own result, true for nil
    ensures FromStart(r.base, name) ==> v == Some(r.base[name])
    ensures v.Some? && !FromStart(r.base, name) ==>
              && name in r.preload
              && (r.preload[name].result != Nil ==> v == Some(r.preload[name].result))
              && (r.preload[name].result == Nil ==> v == Some(True))
    // its loader is started exactly when the module is preloaded and not cached
    ensures r.starts != old(r.starts) <==> name in r.preload && !Cached(old(r.loaded), name)
    ensures r.starts != old(r.starts) ==>
              && r.starts[|old(r.starts)|] == name
              && forall k | |old(r.starts)| < k < |r.starts| :: RankOf(r.rank, r.starts[k]) < RankOf(r.rank, name)
  {
    hide Grown, Resolves, Over, Quiet, StartedOnce, Started;
    CachedValue(r.preload, r.rank, r.base, r.loaded, r.log, name);
    ghost var a, la, sa := r.loaded, r.log, r.starts;
    AllOverQuiet(r.preload, r.rank, r.base, r.loaded, r.starts, RankOf(r.rank, name));
    v := r.Require(name);
    AllOverKept(r.preload, r.rank, r.base, RankOf(r.rank, name), a, la, sa, r.loaded, r.log, r.starts);
    Prefixes(r.rank, RankOf(r.rank, name), a, la, sa, r.loaded, r.log, r.starts);
  }

  lemma {:induction false} Prefixes(rank: map<string, nat>, r: nat, a: map<string, Val>, la: seq<string>, sa: seq<string>,
                                    b: map<string, Val>, lb: seq<string>, sb: seq<string>)
    requires Grown(rank, r, a, la, b, lb) && Started(rank, r, sa, sb)
    ensures la <= lb && sa <= sb
  {
  }

  lemma {:induction false} CachedValue(preload: map<string, Loader>, rank: map<string, nat>, base: map<string, Val>,
                                       loaded: map<string, Val>, log: seq<string>, n: string)
    requires Consistent(preload, rank, base, loaded, log)
    ensures Cached(base, n) ==> Cached(loaded, n)
    ensures Cached(loaded, n) ==>
              if Cached(base, n) then loaded[n] == base[n]
              else n in preload && loaded[n] == Stored(preload[n].result) && preload[n].result != False
                   && Resolves(preload, rank, base, n)
  {
  }

  /** Requiring, at any later time, a module whose loader has been started before: the loader is
      started again if and only if it returned false or the module cannot be had, and the value
      is the same every time. */
  method RequireAgain(r: Registry, name: string) returns (v: Option<Val>)
    requires r.Valid() && r.Idle() && name in r.starts
    modifies r
    ensures r.Valid() && r.Idle() && name in r.preload && old(r.starts) <= r.starts
    ensures v.Some? <==> Resolves(r.preload, r.rank, r.base, name)
    ensures v.Some? ==> ValueOf(r.preload[name], v.value)
    ensures r.starts != old(r.starts) <==>
              r.preload[name].result == False || !Resolves(r.preload, r.rank, r.base, name)
  {
    hide Resolves;
    assert Over(r.preload, r.rank, r.base, r.loaded, name);
    CachedValue(r.preload, r.rank, r.base, r.loaded, r.log, name);
    v := ScriptRequire(r, name);
  }

  /** Requiring a preloaded module twice: after the first call its loader has been started, the
      second starts it again if and only if it returned false or the module cannot be had. */
  method RequireTwice(r: Registry, name: string) returns (first: Option<Val>, second: Option<Val>, between: seq<string>)
    requires r.Valid() && r.Idle() && name in r.preload && !Cached(r.loaded, name)
    modifies r
    ensures r.Valid() && r.Idle() && first == second && old(r.starts) <= between <= r.starts && name in between
    ensures first.Some? ==> ValueOf(r.preload[name], first.value)
    ensures r.starts != between <==> r.preload[name].result == False || !Resolves(r.preload, r.rank, r.base, name)
  {
    first := ScriptRequire(r, name);
    between := r.starts;
    second := RequireAgain(r, name);
  }

  /** Two modules whose loaders return different values, neither of them nil, yield different
      values, in whatever order and after whatever other calls they are required. */
  method RequireTwo(r: Registry, a: string, b: string) returns (va: Option<Val>, vb: Option<Val>)
    requires r.Valid() && r.Idle() && a in r.preload && b in r.preload
    requires !FromStart(r.base, a) && !FromStart(r.base, b)
    requires r.preload[a].result != r.preload[b].result && r.preload[a].result != Nil && r.preload[b].result != Nil
    modifies r
    ensures r.Valid() && r.Idle()
    ensures va.Some? <==> Resolves(r.preload, r.rank, r.base, a)
    ensures vb.Some? <==> Resolves(r.preload, r.rank, r.base, b)
    ensures va.Some? && vb.Some? ==> va == Some(r.preload[a].result) && vb == Some(r.preload[b].result) && va != vb
  {
    hide Resolves;
    va := ScriptRequire(r, a);
    vb := ScriptRequire(r, b);
  }

  const MISSING: map<string, Loader> := map["a" := Loader(["missing"], True)]

  lemma {:induction false} OneStart(rank: map<string, nat>, a: seq<string>, b: seq<string>, name: string)
    requires a <= b && a != b && b[|a|] == name && RankOf(rank, name) == 0
    requires forall k | |a| < k < |b| :: RankOf(rank, b[k]) < RankOf(rank, name)
    ensures b == a + [name]
  {
    var n := |a| + 1;
    assert n < |b| ==> RankOf(rank, b[n]) < RankOf(rank, name);
  }

  /** A module whose loader requires a missing one, required twice with the error caught in
      between: its loader runs twice. */
  method MissingTwice() returns (first: Option<Val>, second: Option<Val>, starts: seq<string>)
    ensures first == second == None && starts == ["a", "a"]
  {
    var r := new Registry(MISSING, map[], map["a" := 0]);
    assert !Resolves(r.preload, r.rank, r.base, "missing");
    assert "missing" in r.preload["a"].deps;
    assert !Resolves(r.preload, r.rank, r.base, "a");
    hide Resolves, Over, StartedOnce;
    first := ScriptRequire(r, "a");
    OneStart(r.rank, [], r.starts, "a");
    CachedValue(r.preload, r.rank, r.base, r.loaded, r.log, "a");
    second := ScriptRequire(r, "a");
    OneStart(r.rank, ["a"], r.starts, "a");
    starts := r.starts;
  }

  lemma {:induction false} CachedResolves(preload: map<string, Loader>, rank: map<string, nat>, base: map<string, Val>,
                                          loaded: map<string, Val>, log: seq<string>, n: string)
    requires Consistent(preload, rank, base, loaded, log)
    ensures Acyclic(preload, rank)
    ensures Cached(loaded, n) ==> Resolves(preload, rank, base, n) && Settled(base, log, n)
    ensures Cached(base, n) ==> Cached(loaded, n)
  {
  }

  lemma {:induction false} ResolvesIff(preload: map<string, Loader>, rank: map<string, nat>, base: map<string, Val>, n: string)
    requires Acyclic(preload, rank) && !Cached(base, n)
    ensures Resolves(preload, rank, base, n) <==>
            n in preload && forall k | 0 <= k < |preload[n].deps| :: Resolves(preload, rank, base, preload[n].deps[k])
  {
  }

  lemma {:induction false} RankFalls(preload: map<string, Loader>, rank: map<string, nat>, n: string, d: string)
    requires Acyclic(preload, rank) && n in preload && d in preload[n].deps
    ensures d in preload ==> RankOf(rank, d) < RankOf(rank, n)
  {
  }

  lemma {:induction false} GrownSame(rank: map<string, nat>, r: nat, loaded: map<string, Val>, log: seq<string>)
    ensures Grown(rank, r, loaded, log, loaded, log)
  {
  }

  lemma {:induction false} GrownLonger(rank: map<string, nat>, r: nat, a: map<string, Val>, la: seq<string>,
                                       b: map<string, Val>, lb: seq<string>)
    requires Grown(rank, r, a, la, b, lb)
    ensures |la| <= |lb|
  {
  }

  /** Requiring a dependency does not touch the dependent and keeps what was settled. */
  lemma {:induction false} DependencyDone(preload: map<string, Loader>, rank: map<string, nat>, base: map<string, Val>,
                                          name: string, dep: string,
                                          a: map<string, Val>, la: seq<string>, b: map<string, Val>, lb: seq<string>,
                                          c: map<string, Val>, lc: seq<string>)
    requires dep in preload ==> RankOf(rank, dep) < RankOf(rank, name)
    requires dep !in preload ==> c == b && lc == lb
    requires Grown(rank, RankOf(rank, name), a, la, b, lb) && Grown(rank, RankOf(rank, dep), b, lb, c, lc)
    requires !Cached(b, name)
    ensures Grown(rank, RankOf(rank, name), a, la, c, lc) && !Cached(c, name)
    ensures forall d | Settled(base, lb, d) :: Settled(base, lc, d)
  {
    forall d | d in lb ensures d in lc {
      var k :| 0 <= k < |lb| && lb[k] == d;
      assert lc[k] == d;
    }
  }
}
