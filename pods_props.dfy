/** What `require` of pods.js promises, stated about `Pods.Resolve`: positional results,
    self-reference, aborting on undefined ids, memoisation, building each module once,
    circular references, and the flag a failed build leaves behind. */
module PodsProperties {
  import opened Js
  import opened Pods

  /** `run` followed by resolving `ids` on the table it leaves, unless it failed. */
  ghost function Continue(sc: Scope, run: Run, ids: seq<string>): Run {
    if run.result.Err? then run else Then(run.result.value, run.built, Resolve(sc, run.table, ids))
  }

  /** Resolving `a + b` is resolving `a` and then `b` on the table `a` leaves behind. */
  lemma {:induction false} ResolveConcat(sc: Scope, t: Table, a: seq<string>, b: seq<string>)
    ensures Resolve(sc, t, a + b) == Continue(sc, Resolve(sc, t, a), b)
    decreases |a|
  {
    if a == [] {
      assert a + b == b;
      ThenNothing(Resolve(sc, t, b));
    } else {
      assert (a + b)[0] == a[0] && (a + b)[1..] == a[1..] + b;
      var head := ResolveOne(sc, t, a[0]);
      if head.result.Ok? {
        ResolveConcat(sc, head.table, a[1..], b);
        var rest := Resolve(sc, head.table, a[1..]);
        if rest.result.Ok? {
          ThenThen(head.result.value, head.built, rest.result.value, rest.built, Resolve(sc, rest.table, b));
        }
      }
    }
  }

  /** `u` is a table `require` can leave behind from `t`: the same ids and definitions, and
      every entry with a truthy export or a set flag untouched. */
  ghost predicate Preserves(t: Table, u: Table) {
    && u.Keys == t.Keys
    && (forall x :: x in t ==> u[x].deps == t[x].deps && u[x].factory == t[x].factory)
    && (forall x :: x in t && (Built(t[x]) || t[x].active) ==> u[x] == t[x])
  }

  lemma PreservesTrans(t: Table, u: Table, v: Table)
    requires Preserves(t, u) && Preserves(u, v)
    ensures Preserves(t, v)
  {
  }

  /** The factories of log `c` return truthy values in `u` when those of a log `b` that
      contains `c` do in `t`, and `u` keeps `t`'s factories. */
  lemma TruthyKept(sc: Scope, t: Table, u: Table, b: seq<string>, c: seq<string>)
    requires Preserves(t, u) && forall x :: x in c ==> x in b
    requires forall x, args :: x in b && x in t ==> Truthy(Apply(sc.prog, t[x].factory, args))
    ensures forall x, args :: x in c && x in u ==> Truthy(Apply(sc.prog, u[x].factory, args))
  {
    forall x, args | x in c && x in u
      ensures Truthy(Apply(sc.prog, u[x].factory, args))
    {
      assert x in b && u[x].factory == t[x].factory;
    }
  }

  /** `require` never changes a definition, never touches an entry that is built or being
      built, and succeeds on an id only when it is defined or names the registry, yielding
      what the table then holds for it. */
  lemma {:induction false} FrameOne(sc: Scope, t: Table, id: string)
    ensures var run := ResolveOne(sc, t, id);
            && Preserves(t, run.table)
            && (run.result.Ok? ==> (id in t || IsSelf(sc, id)) && run.result.value[0] == Lookup(sc, run.table, id))
    decreases Idle(t), 0
  {
    if id in t && !Built(t[id]) && !t[id].active {
      var def := t[id];
      var t1 := t[id := def.(active := true)];
      IdleAfter(t, id, def.(active := true));
      Frame(sc, t1, def.deps);
    }
  }

  lemma {:induction false} Frame(sc: Scope, t: Table, ids: seq<string>)
    ensures Preserves(t, Resolve(sc, t, ids).table)
    decreases Idle(t), |ids|
  {
    if ids != [] {
      FrameOne(sc, t, ids[0]);
      var head := ResolveOne(sc, t, ids[0]);
      if head.result.Ok? {
        Frame(sc, head.table, ids[1..]);
        PreservesTrans(t, head.table, Resolve(sc, head.table, ids[1..]).table);
      }
    }
  }

  /** Element `k` of a successful result is what resolving `ids[k]` yields on the table
      the ids before it leave behind. */
  lemma PositionalStep(sc: Scope, t: Table, ids: seq<string>, k: nat)
    requires k < |ids| && Resolve(sc, t, ids).result.Ok?
    ensures var pre := Resolve(sc, t, ids[..k]);
            && pre.result.Ok?
            && ResolveOne(sc, pre.table, ids[k]).result == Ok([Resolve(sc, t, ids).result.value[k]])
            && Resolve(sc, t, ids) == Continue(sc, Resolve(sc, t, ids[..k + 1]), ids[k + 1..])
  {
    ValueAt(sc, t, ids, k);
    var a, b := ids[..k + 1], ids[k + 1..];
    assert a + b == ids;
    ResolveConcat(sc, t, a, b);
  }

  /** The value half of `PositionalStep`. */
  lemma ValueAt(sc: Scope, t: Table, ids: seq<string>, k: nat)
    requires k < |ids| && Resolve(sc, t, ids).result.Ok?
    ensures var pre := Resolve(sc, t, ids[..k]);
            && pre.result.Ok?
            && ResolveOne(sc, pre.table, ids[k]).result == Ok([Resolve(sc, t, ids).result.value[k]])
  {
    var a, b := ids[..k], ids[k..];
    assert a + b == ids;
    ResolveConcat(sc, t, a, b);
    var pre := Resolve(sc, t, a);
    HeadValue(sc, pre.table, b);
    assert b[0] == ids[k];
  }

  /** The first value of a successful result is the one its first id yields. */
  lemma HeadValue(sc: Scope, t: Table, ids: seq<string>)
    requires ids != [] && Resolve(sc, t, ids).result.Ok?
    ensures ResolveOne(sc, t, ids[0]).result == Ok([Resolve(sc, t, ids).result.value[0]])
  {
  }

  /** Element `k` of a successful result is the export a defined `ids[k]` holds right
      after it is resolved, or the registry itself for `'pod'` or the registry's name when
      no such module is defined; a truthy export it yields is the one the table keeps. */
  lemma Position(sc: Scope, t: Table, ids: seq<string>, k: nat)
    requires k < |ids| && Resolve(sc, t, ids).result.Ok?
    ensures var run := Resolve(sc, t, ids);
            var after := Resolve(sc, t, ids[..k + 1]).table;
            && (ids[k] in t || IsSelf(sc, ids[k]))
            && (ids[k] !in t ==> run.result.value[k] == sc.me)
            && (ids[k] in t ==> ids[k] in after && run.result.value[k] == after[ids[k]].exports)
            && (ids[k] in t && Truthy(run.result.value[k]) ==> ids[k] in run.table && run.table[ids[k]].exports == run.result.value[k])
  {
    PositionalStep(sc, t, ids, k);
    var pre := Resolve(sc, t, ids[..k]);
    Frame(sc, t, ids[..k]);
    PrefixStep(sc, t, ids, k);
    var one := ResolveOne(sc, pre.table, ids[k]);
    FrameOne(sc, pre.table, ids[k]);
    Frame(sc, one.table, ids[k + 1..]);
  }

  /** The table the first `k + 1` ids leave is the one `ids[k]` leaves after the first `k`. */
  lemma PrefixStep(sc: Scope, t: Table, ids: seq<string>, k: nat)
    requires k < |ids| && Resolve(sc, t, ids[..k]).result.Ok?
    ensures var one := ResolveOne(sc, Resolve(sc, t, ids[..k]).table, ids[k]);
            one.result.Ok? ==> Resolve(sc, t, ids[..k + 1]).table == one.table
  {
    var pre := Resolve(sc, t, ids[..k]);
    assert ids[..k + 1] == ids[..k] + [ids[k]];
    ResolveConcat(sc, t, ids[..k], [ids[k]]);
    var one := ResolveOne(sc, pre.table, ids[k]);
    assert [ids[k]][0] == ids[k] && [ids[k]][1..] == [];
    if one.result.Ok? {
      assert Resolve(sc, pre.table, [ids[k]]) == Then(one.result.value, one.built, Resolve(sc, one.table, []));
    }
  }

  /** A successful `require` resolves every id positionally: each is defined or names the
      registry, an undefined one yields the registry, a truthy export stays in the table. */
  lemma Positional(sc: Scope, t: Table, ids: seq<string>)
    requires Resolve(sc, t, ids).result.Ok?
    ensures var run := Resolve(sc, t, ids);
            forall k :: 0 <= k < |ids| ==>
              && (ids[k] in t || IsSelf(sc, ids[k]))
              && (ids[k] !in t ==> run.result.value[k] == sc.me)
              && (ids[k] in t && Truthy(run.result.value[k]) ==> ids[k] in run.table && run.table[ids[k]].exports == run.result.value[k])
  {
    forall k | 0 <= k < |ids| {
      Position(sc, t, ids, k);
    }
  }

  /** An id that is neither defined nor the registry's own makes the whole call fail, even
      when every other id is defined. */
  lemma UndefinedAborts(sc: Scope, t: Table, ids: seq<string>, k: nat)
    requires k < |ids| && ids[k] !in t && !IsSelf(sc, ids[k])
    ensures Resolve(sc, t, ids).result.Err?
  {
    if Resolve(sc, t, ids).result.Ok? {
      Position(sc, t, ids, k);
    }
  }

  /** The first id that fails because it is undefined names itself in the error. */
  lemma UndefinedError(sc: Scope, t: Table, ids: seq<string>, k: nat)
    requires k < |ids| && ids[k] !in t && !IsSelf(sc, ids[k])
    requires Resolve(sc, t, ids[..k]).result.Ok?
    ensures Resolve(sc, t, ids).result == Err(UndefinedModule(Str(ids[k])))
  {
    assert ids == ids[..k] + ids[k..];
    ResolveConcat(sc, t, ids[..k], ids[k..]);
    var pre := Resolve(sc, t, ids[..k]);
    Frame(sc, t, ids[..k]);
    assert ids[k..][0] == ids[k];
    assert ResolveOne(sc, pre.table, ids[k]).result == Err(UndefinedModule(Str(ids[k])));
    assert Resolve(sc, pre.table, ids[k..]).result == Err(UndefinedModule(Str(ids[k])));
  }

  /** Ids whose resolution needs no factory: modules with a truthy export, and the
      registry's own ids when no module of that name is defined. */
  ghost predicate Ready(sc: Scope, t: Table, ids: seq<string>) {
    forall k :: 0 <= k < |ids| ==> (ids[k] in t && Built(t[ids[k]])) || (ids[k] !in t && IsSelf(sc, ids[k]))
  }

  /** The values `require` yields for ids that are all `Ready`. */
  function Lookups(sc: Scope, t: Table, ids: seq<string>): (vs: seq<Value>)
    ensures |vs| == |ids| && forall k :: 0 <= k < |ids| ==> vs[k] == Lookup(sc, t, ids[k])
  {
    if ids == [] then [] else [Lookup(sc, t, ids[0])] + Lookups(sc, t, ids[1..])
  }

  /** Once every requested module holds a truthy export, `require` hands the exports out
      and calls no factory and touches no entry. */
  lemma {:induction false} Memoised(sc: Scope, t: Table, ids: seq<string>)
    requires Ready(sc, t, ids)
    ensures Resolve(sc, t, ids) == Run(Ok(Lookups(sc, t, ids)), t, [])
    decreases |ids|
  {
    if ids != [] {
      assert forall k :: 0 <= k < |ids[1..]| ==> ids[1..][k] == ids[k + 1];
      Memoised(sc, t, ids[1..]);
      var head := ResolveOne(sc, t, ids[0]);
      assert head == Run(Ok([Lookup(sc, t, ids[0])]), t, []);
      assert Resolve(sc, t, ids) == Then(head.result.value, [], Run(Ok(Lookups(sc, t, ids[1..])), t, []));
      var none: seq<string> := [];
      assert none + none == none;
    }
  }

  /** A factory is called only for a module that was defined, had no truthy export and
      was not being built; and an entry whose factory is not called keeps its export. */
  lemma {:induction false} BuildLogOne(sc: Scope, t: Table, id: string)
    ensures var run := ResolveOne(sc, t, id);
            && (forall x :: x in run.built ==> x in t && !Built(t[x]) && !t[x].active)
            && (forall x :: x in t && x in run.table && x !in run.built ==> run.table[x].exports == t[x].exports)
    decreases Idle(t), 0
  {
    if id in t && !Built(t[id]) && !t[id].active {
      var def := t[id];
      var t1 := t[id := def.(active := true)];
      IdleAfter(t, id, def.(active := true));
      BuildLog(sc, t1, def.deps);
    }
  }

  lemma {:induction false} BuildLog(sc: Scope, t: Table, ids: seq<string>)
    ensures var run := Resolve(sc, t, ids);
            && (forall x :: x in run.built ==> x in t && !Built(t[x]) && !t[x].active)
            && (forall x :: x in t && x in run.table && x !in run.built ==> run.table[x].exports == t[x].exports)
    decreases Idle(t), |ids|
  {
    if ids != [] {
      BuildLogOne(sc, t, ids[0]);
      FrameOne(sc, t, ids[0]);
      var head := ResolveOne(sc, t, ids[0]);
      if head.result.Ok? {
        BuildLog(sc, head.table, ids[1..]);
        var rest := Resolve(sc, head.table, ids[1..]);
        assert Resolve(sc, t, ids).built == head.built + rest.built;
        forall x | x in rest.built
          ensures x in t && !Built(t[x]) && !t[x].active
        {
          assert x in head.table && !Built(head.table[x]) && !head.table[x].active;
        }
      }
    }
  }

  /** When the factories one id calls return truthy values, it calls no factory twice,
      every module whose factory it called is built afterwards, and on success a defined
      id is built. */
  lemma {:induction false} OnceOne(sc: Scope, t: Table, id: string)
    requires forall x, args :: x in ResolveOne(sc, t, id).built && x in t ==> Truthy(Apply(sc.prog, t[x].factory, args))
    ensures var run := ResolveOne(sc, t, id);
            && NoDuplicates(run.built)
            && (forall x :: x in run.built ==> x in run.table && Built(run.table[x]))
            && (run.result.Ok? && id in t ==> id in run.table && Built(run.table[id]))
    decreases Idle(t), 0
  {
    if id in t && !Built(t[id]) && !t[id].active {
      var def := t[id];
      var t1 := t[id := def.(active := true)];
      IdleAfter(t, id, def.(active := true));
      var sub := Resolve(sc, t1, def.deps);
      var run := ResolveOne(sc, t, id);
      assert run.built == if sub.result.Ok? then sub.built + [id] else sub.built;
      TruthyKept(sc, t, t1, run.built, sub.built);
      Once(sc, t1, def.deps);
      BuildLog(sc, t1, def.deps);
      if sub.result.Ok? {
        assert id in run.built;
        assert Truthy(Apply(sc.prog, def.factory, sub.result.value));
        NoDuplicatesConcat(sub.built, [id]);
      }
    }
  }

  /** When the factories a `require` calls return truthy values, it calls no factory twice
      and every module whose factory it called stays built. */
  lemma {:induction false} Once(sc: Scope, t: Table, ids: seq<string>)
    requires forall x, args :: x in Resolve(sc, t, ids).built && x in t ==> Truthy(Apply(sc.prog, t[x].factory, args))
    ensures var run := Resolve(sc, t, ids);
            && NoDuplicates(run.built)
            && (forall x :: x in run.built ==> x in run.table && Built(run.table[x]))
    decreases Idle(t), |ids|
  {
    if ids != [] {
      var head := ResolveOne(sc, t, ids[0]);
      FrameOne(sc, t, ids[0]);
      if head.result.Err? {
        OnceOne(sc, t, ids[0]);
      } else {
        var rest := Resolve(sc, head.table, ids[1..]);
        var run := Resolve(sc, t, ids);
        assert run.built == head.built + rest.built;
        OnceOne(sc, t, ids[0]);
        TruthyKept(sc, t, head.table, run.built, rest.built);
        Once(sc, head.table, ids[1..]);
        BuildLog(sc, head.table, ids[1..]);
        Frame(sc, head.table, ids[1..]);
        NoDuplicatesConcat(head.built, rest.built);
      }
    }
  }

  /** When the factories a successful `require` calls return truthy values, every
      requested defined module is built afterwards. */
  lemma {:induction false} RequestedBuilt(sc: Scope, t: Table, ids: seq<string>)
    requires forall x, args :: x in Resolve(sc, t, ids).built && x in t ==> Truthy(Apply(sc.prog, t[x].factory, args))
    ensures var run := Resolve(sc, t, ids);
            run.result.Ok? ==> forall k :: 0 <= k < |ids| && ids[k] in t ==> ids[k] in run.table && Built(run.table[ids[k]])
    decreases |ids|
  {
    if ids != [] {
      var head := ResolveOne(sc, t, ids[0]);
      FrameOne(sc, t, ids[0]);
      if head.result.Ok? {
        var rest := Resolve(sc, head.table, ids[1..]);
        var run := Resolve(sc, t, ids);
        assert run.built == head.built + rest.built;
        OnceOne(sc, t, ids[0]);
        TruthyKept(sc, t, head.table, run.built, rest.built);
        RequestedBuilt(sc, head.table, ids[1..]);
        Frame(sc, head.table, ids[1..]);
        if rest.result.Ok? {
          forall k | 0 <= k < |ids| && ids[k] in t
            ensures ids[k] in rest.table && Built(rest.table[ids[k]])
          {
            if k > 0 {
              assert ids[1..][k - 1] == ids[k];
            }
          }
        }
      }
    }
  }

  /** Every defined dependency of a module whose factory was called (as the dependency
      list stood in `t`) holds a truthy export in `u`. */
  ghost predicate DepsReady(t: Table, built: seq<string>, u: Table) {
    forall x, j :: x in built && x in t && 0 <= j < |t[x].deps| && t[x].deps[j] in t ==>
      t[x].deps[j] in u && Built(u[t[x].deps[j]])
  }

  /** When the factories it calls return truthy values, a successful resolution leaves
      every dependency of each module it built built as well. */
  lemma {:induction false} DepsBuiltOne(sc: Scope, t: Table, id: string)
    requires forall x, args :: x in ResolveOne(sc, t, id).built && x in t ==> Truthy(Apply(sc.prog, t[x].factory, args))
    ensures var run := ResolveOne(sc, t, id);
            run.result.Ok? ==> DepsReady(t, run.built, run.table)
    decreases Idle(t), 0
  {
    if id in t && !Built(t[id]) && !t[id].active {
      var def := t[id];
      var t1 := t[id := def.(active := true)];
      IdleAfter(t, id, def.(active := true));
      var sub := Resolve(sc, t1, def.deps);
      if sub.result.Ok? {
        var e := Apply(sc.prog, def.factory, sub.result.value);
        var run := ResolveOne(sc, t, id);
        assert run.table == sub.table[id := def.(exports := e)] && run.built == sub.built + [id];
        TruthyKept(sc, t, t1, run.built, sub.built);
        DepsBuilt(sc, t1, def.deps);
        Once(sc, t1, def.deps);
        RequestedBuilt(sc, t1, def.deps);
        Frame(sc, t1, def.deps);
        forall x, j | x in run.built && x in t && 0 <= j < |t[x].deps| && t[x].deps[j] in t
          ensures t[x].deps[j] in run.table && Built(run.table[t[x].deps[j]])
        {
          var d := t[x].deps[j];
          if d != id {
            if x == id {
              assert def.deps[j] == d;
            } else {
              assert x in sub.built && t1[x] == t[x];
            }
          }
        }
      }
    }
  }

  lemma {:induction false} DepsBuilt(sc: Scope, t: Table, ids: seq<string>)
    requires forall x, args :: x in Resolve(sc, t, ids).built && x in t ==> Truthy(Apply(sc.prog, t[x].factory, args))
    ensures var run := Resolve(sc, t, ids);
            run.result.Ok? ==> DepsReady(t, run.built, run.table)
    decreases Idle(t), |ids|
  {
    if ids != [] {
      FrameOne(sc, t, ids[0]);
      var head := ResolveOne(sc, t, ids[0]);
      if head.result.Ok? {
        var rest := Resolve(sc, head.table, ids[1..]);
        var run := Resolve(sc, t, ids);
        assert run.built == head.built + rest.built && run.table == rest.table;
        DepsBuiltOne(sc, t, ids[0]);
        TruthyKept(sc, t, head.table, run.built, rest.built);
        DepsBuilt(sc, head.table, ids[1..]);
        Frame(sc, head.table, ids[1..]);
        if rest.result.Ok? {
          forall x, j | x in run.built && x in t && 0 <= j < |t[x].deps| && t[x].deps[j] in t
            ensures t[x].deps[j] in run.table && Built(run.table[t[x].deps[j]])
          {
            var d := t[x].deps[j];
            if x !in head.built {
              assert x in rest.built && head.table[x].deps == t[x].deps;
            }
          }
        }
      }
    }
  }

  /** Building a module calls its factory on what its dependencies resolve to, in order,
      while the module is flagged: the registry for its own names, otherwise the export the
      dependency then holds, which is the one every later requester gets when it is truthy.
      No module is among its own dependencies, and the export is stored with the flag
      cleared. */
  lemma FactoryArguments(sc: Scope, t: Table, id: string)
    requires id in t && !Built(t[id]) && !t[id].active
    ensures var t1 := t[id := t[id].(active := true)];
            var deps := t[id].deps;
            var sub := Resolve(sc, t1, deps);
            var run := ResolveOne(sc, t, id);
            run.result.Ok? ==>
              && sub.result.Ok?
              && id in run.table
              && run.table[id].exports == Apply(sc.prog, t[id].factory, sub.result.value)
              && !run.table[id].active
              && run.result.value == [run.table[id].exports]
              && forall k :: 0 <= k < |deps| ==>
                   && deps[k] != id
                   && (deps[k] in t || IsSelf(sc, deps[k]))
                   && (deps[k] !in t ==> sub.result.value[k] == sc.me)
                   && (deps[k] in t ==> var after := Resolve(sc, t1, deps[..k + 1]).table;
                         deps[k] in after && sub.result.value[k] == after[deps[k]].exports)
                   && (deps[k] in t && Truthy(sub.result.value[k]) ==>
                         deps[k] in run.table && run.table[deps[k]].exports == sub.result.value[k])
  {
    var def := t[id];
    var t1 := t[id := def.(active := true)];
    IdleAfter(t, id, def.(active := true));
    var sub := Resolve(sc, t1, def.deps);
    if sub.result.Ok? {
      forall k | 0 <= k < |def.deps|
        ensures def.deps[k] != id
        ensures def.deps[k] in t || IsSelf(sc, def.deps[k])
        ensures def.deps[k] !in t ==> sub.result.value[k] == sc.me
        ensures def.deps[k] in t ==> var after := Resolve(sc, t1, def.deps[..k + 1]).table;
                  def.deps[k] in after && sub.result.value[k] == after[def.deps[k]].exports
        ensures def.deps[k] in t && Truthy(sub.result.value[k]) ==>
                  def.deps[k] in sub.table && sub.table[def.deps[k]].exports == sub.result.value[k]
      {
        Position(sc, t1, def.deps, k);
        PositionalStep(sc, t1, def.deps, k);
        Frame(sc, t1, def.deps[..k]);
        var pre := Resolve(sc, t1, def.deps[..k]);
        assert pre.table[id] == t1[id];
      }
      var e := Apply(sc.prog, def.factory, sub.result.value);
      assert ResolveOne(sc, t, id) == Run(Ok([e]), sub.table[id := def.(exports := e)], sub.built + [id]);
    }
  }

  /** When the factories a successful `require` calls return truthy values, it calls the
      factory of every requested module that had no truthy export and of every such
      dependency of a module it builds, and calls no factory more than once, so a
      dependency shared by several modules or repeated in the batch is built once. */
  lemma ExactlyOnce(sc: Scope, t: Table, ids: seq<string>)
    requires forall x, args :: x in Resolve(sc, t, ids).built && x in t ==> Truthy(Apply(sc.prog, t[x].factory, args))
    requires Resolve(sc, t, ids).result.Ok?
    ensures var run := Resolve(sc, t, ids);
            && NoDuplicates(run.built)
            && (forall x :: x in run.built ==> x in t && !Built(t[x]))
            && (forall k :: 0 <= k < |ids| && ids[k] in t && !Built(t[ids[k]]) ==> ids[k] in run.built)
            && (forall x, j :: x in run.built && 0 <= j < |t[x].deps| && t[x].deps[j] in t && !Built(t[t[x].deps[j]]) ==>
                  t[x].deps[j] in run.built)
  {
    Once(sc, t, ids);
    RequestedBuilt(sc, t, ids);
    BuildLog(sc, t, ids);
    DepsBuilt(sc, t, ids);
  }

  /** In log `b`, the module built at position `i` is a listed dependency of the module
      built at the later position `j`. */
  ghost predicate NeededBy(t: Table, b: seq<string>, i: int, j: int) {
    0 <= i < j < |b| && b[j] in t && b[i] in t[b[j]].deps
  }

  /** Log `b` is in post-order for the requested `ids`: each factory call is for a
      requested id or for a dependency of a module whose factory is called later. */
  ghost predicate PostOrder(t: Table, b: seq<string>, ids: seq<string>) {
    forall i :: 0 <= i < |b| ==> b[i] in ids || exists j :: NeededBy(t, b, i, j)
  }

  /** The module built at position `i` of log `b` is wanted by the request: it is requested,
      or it is a dependency of a wanted module built later. */
  ghost predicate Wanted(t: Table, b: seq<string>, ids: seq<string>, i: int)
    decreases |b| - i
  {
    0 <= i < |b| && (b[i] in ids || exists j :: NeededBy(t, b, i, j) && Wanted(t, b, ids, j))
  }

  /** A log in post-order builds only wanted modules: from every factory call a chain of
      dependency edges to later calls ends at a requested id, so modules that only depend
      on each other are never built. */
  lemma {:induction false} PostOrderWanted(t: Table, b: seq<string>, ids: seq<string>, i: nat)
    requires PostOrder(t, b, ids) && i < |b|
    ensures Wanted(t, b, ids, i)
    decreases |b| - i
  {
    if b[i] !in ids {
      var j :| NeededBy(t, b, i, j);
      PostOrderWanted(t, b, ids, j);
    }
  }

  /** A build's log: the nested calls for its dependencies, in post-order on the flagged
      table, then the module itself. */
  lemma PostOrderBuild(t: Table, t1: Table, h: seq<string>, id: string)
    requires id in t && PostOrder(t1, h, t[id].deps)
    requires forall j :: 0 <= j < |h| && h[j] in t1 ==> h[j] in t && t1[h[j]].deps == t[h[j]].deps
    ensures PostOrder(t, h + [id], [id])
  {
    var b := h + [id];
    forall i | 0 <= i < |b| && b[i] !in [id]
      ensures exists j :: NeededBy(t, b, i, j)
    {
      assert i < |h| && b[i] == h[i];
      if h[i] in t[id].deps {
        assert NeededBy(t, b, i, |h|);
      } else {
        var j :| NeededBy(t1, h, i, j);
        assert b[j] == h[j];
        assert NeededBy(t, b, i, j);
      }
    }
  }

  /** Two logs in post-order, the second on a table with the same dependency lists, make
      one in post-order for all the ids requested. */
  lemma PostOrderConcat(t: Table, u: Table, h: seq<string>, r: seq<string>, a: seq<string>, c: seq<string>, ids: seq<string>)
    requires PostOrder(t, h, a) && PostOrder(u, r, c)
    requires (forall x :: x in a ==> x in ids) && (forall x :: x in c ==> x in ids)
    requires forall j :: 0 <= j < |r| && r[j] in u ==> r[j] in t && u[r[j]].deps == t[r[j]].deps
    ensures PostOrder(t, h + r, ids)
  {
    var b := h + r;
    forall i | 0 <= i < |b| && b[i] !in ids
      ensures exists j :: NeededBy(t, b, i, j)
    {
      if i < |h| {
        assert b[i] == h[i] && h[i] !in a;
        var j :| NeededBy(t, h, i, j);
        assert b[j] == h[j];
        assert NeededBy(t, b, i, j);
      } else {
        var i' := i - |h|;
        assert b[i] == r[i'] && r[i'] !in c;
        var j :| NeededBy(u, r, i', j);
        assert b[j + |h|] == r[j];
        assert NeededBy(t, b, i, j + |h|);
      }
    }
  }

  /** `require` is lazy: a successful resolution of `id` calls factories in post-order,
      for `id` last and before that only for dependencies of modules built later. */
  lemma {:induction false} LazyOne(sc: Scope, t: Table, id: string)
    ensures var run := ResolveOne(sc, t, id);
            run.result.Ok? ==> PostOrder(t, run.built, [id])
    decreases Idle(t), 0
  {
    if id in t && !Built(t[id]) && !t[id].active {
      var def := t[id];
      var t1 := t[id := def.(active := true)];
      IdleAfter(t, id, def.(active := true));
      Lazy(sc, t1, def.deps);
      var sub := Resolve(sc, t1, def.deps);
      if sub.result.Ok? {
        assert ResolveOne(sc, t, id).built == sub.built + [id];
        PostOrderBuild(t, t1, sub.built, id);
      }
    }
  }

  /** A successful `require` calls factories in post-order for the requested ids, so
      (by `PostOrderWanted`) it builds nothing the request does not need. */
  lemma {:induction false} Lazy(sc: Scope, t: Table, ids: seq<string>)
    ensures var run := Resolve(sc, t, ids);
            run.result.Ok? ==> PostOrder(t, run.built, ids)
    decreases Idle(t), |ids|
  {
    if ids != [] {
      var head := ResolveOne(sc, t, ids[0]);
      if head.result.Ok? {
        var rest := Resolve(sc, head.table, ids[1..]);
        if rest.result.Ok? {
          LazyOne(sc, t, ids[0]);
          Lazy(sc, head.table, ids[1..]);
          FrameOne(sc, t, ids[0]);
          forall j | 0 <= j < |rest.built| && rest.built[j] in head.table
            ensures rest.built[j] in t && head.table[rest.built[j]].deps == t[rest.built[j]].deps
          {
            assert rest.built[j] in head.table.Keys;
          }
          assert Resolve(sc, t, ids).built == head.built + rest.built;
          assert ids == [ids[0]] + ids[1..];
          PostOrderConcat(t, head.table, head.built, rest.built, [ids[0]], ids[1..], ids);
        }
      }
    }
  }

  /** When the factories a successful `require` calls return truthy values, requiring the
      same ids again yields the same values, calls no factory and leaves the table as it
      is. */
  lemma SecondRequire(sc: Scope, t: Table, ids: seq<string>)
    requires forall x, args :: x in Resolve(sc, t, ids).built && x in t ==> Truthy(Apply(sc.prog, t[x].factory, args))
    requires Resolve(sc, t, ids).result.Ok?
    ensures var run := Resolve(sc, t, ids);
            Resolve(sc, run.table, ids) == Run(run.result, run.table, [])
  {
    var run := Resolve(sc, t, ids);
    var vs := run.result.value;
    RequestedBuilt(sc, t, ids);
    Frame(sc, t, ids);
    forall k | 0 <= k < |ids|
      ensures (ids[k] in run.table && Built(run.table[ids[k]])) || (ids[k] !in run.table && IsSelf(sc, ids[k]))
      ensures vs[k] == Lookup(sc, run.table, ids[k])
    {
      Position(sc, t, ids, k);
      if ids[k] in t {
        assert ids[..k + 1][k] == ids[k];
        PositionalStep(sc, t, ids, k);
        var pre := Resolve(sc, t, ids[..k + 1]);
        assert pre.result.Ok? && run.built == pre.built + Resolve(sc, pre.table, ids[k + 1..]).built;
        RequestedBuilt(sc, t, ids[..k + 1]);
      }
    }
    Memoised(sc, run.table, ids);
    assert vs == Lookups(sc, run.table, ids);
  }

  /** Membership in a trap, named so that a proof instantiates `Trap` only for the ids it
      mentions and not for every dependency that the definition of a trap brings up. */
  ghost predicate InTrap(s: set<string>, x: string) {
    x in s
  }

  /** A set of defined modules without truthy exports, each depending on one of the set:
      a circular dependency that no build can complete. */
  ghost predicate Trap(t: Table, s: set<string>) {
    && s <= t.Keys
    && forall x {:trigger InTrap(s, x)} :: InTrap(s, x) ==>
         && !Built(t[x])
         && exists k :: 0 <= k < |t[x].deps| && t[x].deps[k] in s
  }

  /** Resolving a module of a trap fails; resolving anything else, when it succeeds,
      leaves the trap's entries as they were. */
  lemma {:induction false} TrapOne(sc: Scope, t: Table, s: set<string>, id: string)
    requires Trap(t, s)
    ensures var run := ResolveOne(sc, t, id);
            run.result.Ok? ==> id !in s && forall x :: x in s ==> x in run.table && run.table[x] == t[x]
    decreases Idle(t), 0
  {
    if id in s {
      assert InTrap(s, id);
    }
    if id in t && !Built(t[id]) && !t[id].active {
      var def := t[id];
      var t1 := t[id := def.(active := true)];
      IdleAfter(t, id, def.(active := true));
      assert Trap(t1, s) by {
        forall x | InTrap(s, x)
          ensures !Built(t1[x]) && exists k :: 0 <= k < |t1[x].deps| && t1[x].deps[k] in s
        {
          assert t1[x].deps == t[x].deps && t1[x].exports == t[x].exports;
        }
      }
      TrapMany(sc, t1, s, def.deps);
      var sub := Resolve(sc, t1, def.deps);
      if id in s {
        assert InTrap(s, id);
        var k :| 0 <= k < |def.deps| && def.deps[k] in s;
        assert sub.result.Err?;
      } else if sub.result.Ok? {
        var e := Apply(sc.prog, def.factory, sub.result.value);
        assert ResolveOne(sc, t, id).table == sub.table[id := def.(exports := e)];
        assert forall x :: x in s ==> x != id && t1[x] == t[x];
      }
    }
  }

  lemma {:induction false} TrapMany(sc: Scope, t: Table, s: set<string>, ids: seq<string>)
    requires Trap(t, s)
    ensures var run := Resolve(sc, t, ids);
            run.result.Ok? ==> (forall k :: 0 <= k < |ids| ==> ids[k] !in s) && forall x :: x in s ==> x in run.table && run.table[x] == t[x]
    decreases Idle(t), |ids|
  {
    if ids != [] {
      TrapOne(sc, t, s, ids[0]);
      var head := ResolveOne(sc, t, ids[0]);
      if head.result.Ok? {
        assert Trap(head.table, s) by {
          forall x | InTrap(s, x)
            ensures !Built(head.table[x]) && exists k :: 0 <= k < |head.table[x].deps| && head.table[x].deps[k] in s
          {
            assert head.table[x] == t[x];
          }
        }
        TrapMany(sc, head.table, s, ids[1..]);
        if Resolve(sc, head.table, ids[1..]).result.Ok? {
          forall k | 1 <= k < |ids|
            ensures ids[k] !in s
          {
            assert ids[1..][k - 1] == ids[k];
          }
        }
      }
    }
  }

  /** Requiring a module caught in a circular dependency throws, whatever else is in the
      batch. */
  lemma CycleFails(sc: Scope, t: Table, s: set<string>, ids: seq<string>, k: nat)
    requires Trap(t, s) && k < |ids| && ids[k] in s
    ensures Resolve(sc, t, ids).result.Err?
  {
    TrapMany(sc, t, s, ids);
  }

  /** A set of defined modules without truthy exports, each of which has its first
      dependency in the set: every closed cycle such as `a -> b -> c -> a` is one. */
  ghost predicate Cycle(t: Table, s: set<string>) {
    && s <= t.Keys
    && forall x {:trigger InTrap(s, x)} :: InTrap(s, x) ==>
         && !Built(t[x])
         && |t[x].deps| > 0
         && t[x].deps[0] in s
  }

  /** A cycle stays one in a table that leaves its entries as they were. */
  lemma CycleKept(t: Table, u: Table, s: set<string>)
    requires Cycle(t, s) && forall x :: x in s ==> x in u && u[x].deps == t[x].deps && u[x].exports == t[x].exports
    ensures Cycle(u, s)
  {
    forall x | InTrap(s, x)
      ensures !Built(u[x]) && |u[x].deps| > 0 && u[x].deps[0] in s
    {
      assert InTrap(s, x);
    }
  }

  /** Requiring a module of a cycle throws `circular reference` for a module of the
      cycle, once the descent comes back to a module it flagged. */
  lemma {:induction false} CycleErrorOne(sc: Scope, t: Table, s: set<string>, id: string)
    requires Cycle(t, s) && id in s
    ensures exists y :: y in s && ResolveOne(sc, t, id).result == Err(CircularReference(y))
    decreases Idle(t)
  {
    assert InTrap(s, id);
    var def := t[id];
    if def.active {
      assert ResolveOne(sc, t, id).result == Err(CircularReference(id));
    } else {
      var t1 := t[id := def.(active := true)];
      IdleAfter(t, id, def.(active := true));
      CycleKept(t, t1, s);
      CycleErrorOne(sc, t1, s, def.deps[0]);
      var y :| y in s && ResolveOne(sc, t1, def.deps[0]).result == Err(CircularReference(y));
      assert Resolve(sc, t1, def.deps).result == Err(CircularReference(y));
      assert ResolveOne(sc, t, id).result == Err(CircularReference(y));
    }
  }

  /** A batch whose ids before `ids[k]` resolve, and `ids[k]` is in a cycle, throws
      `circular reference` for a module of the cycle. */
  lemma CycleError(sc: Scope, t: Table, s: set<string>, ids: seq<string>, k: nat)
    requires Cycle(t, s) && k < |ids| && ids[k] in s
    requires Resolve(sc, t, ids[..k]).result.Ok?
    ensures exists y :: y in s && Resolve(sc, t, ids).result == Err(CircularReference(y))
  {
    assert Trap(t, s) by {
      forall x | InTrap(s, x)
        ensures !Built(t[x]) && exists j :: 0 <= j < |t[x].deps| && t[x].deps[j] in s
      {
        assert t[x].deps[0] in s;
      }
    }
    TrapMany(sc, t, s, ids[..k]);
    var pre := Resolve(sc, t, ids[..k]);
    CycleKept(t, pre.table, s);
    CycleErrorOne(sc, pre.table, s, ids[k]);
    var y :| y in s && ResolveOne(sc, pre.table, ids[k]).result == Err(CircularReference(y));
    assert ids == ids[..k] + ids[k..];
    ResolveConcat(sc, t, ids[..k], ids[k..]);
    assert ids[k..][0] == ids[k];
    assert Resolve(sc, pre.table, ids[k..]).result == Err(CircularReference(y));
  }

  /** A module listed among its own dependencies throws `circular reference to id` once
      the dependencies before that entry resolve. */
  lemma SelfDependency(sc: Scope, t: Table, id: string, k: nat)
    requires id in t && !Built(t[id]) && !t[id].active && k < |t[id].deps| && t[id].deps[k] == id
    requires Resolve(sc, t[id := t[id].(active := true)], t[id].deps[..k]).result.Ok?
    ensures ResolveOne(sc, t, id).result == Err(CircularReference(id))
  {
    var deps := t[id].deps;
    var t1 := t[id := t[id].(active := true)];
    Frame(sc, t1, deps[..k]);
    var pre := Resolve(sc, t1, deps[..k]);
    assert pre.table[id] == t1[id];
    assert deps == deps[..k] + deps[k..];
    ResolveConcat(sc, t1, deps[..k], deps[k..]);
    assert deps[k..][0] == id;
    assert Resolve(sc, pre.table, deps[k..]).result == Err(CircularReference(id));
  }

  /** A build whose dependencies throw leaves the module's flag set: requiring the module
      again later throws `circular reference to id`, though no cycle exists. */
  lemma StaleFlag(sc: Scope, t: Table, id: string)
    requires id in t && !Built(t[id]) && !t[id].active
    requires Resolve(sc, t[id := t[id].(active := true)], t[id].deps).result.Err?
    ensures var run := ResolveOne(sc, t, id);
            && run.result.Err?
            && id in run.table && run.table[id].active
            && ResolveOne(sc, run.table, id).result == Err(CircularReference(id))
  {
    var t1 := t[id := t[id].(active := true)];
    Frame(sc, t1, t[id].deps);
  }

  /** The keys of `pairs`. */
  ghost function Keys(pairs: seq<(string, Value)>): (ks: set<string>)
    ensures forall j :: 0 <= j < |pairs| ==> pairs[j].0 in ks
    ensures forall x :: x in ks ==> exists j :: 0 <= j < |pairs| && pairs[j].0 == x
  {
    if pairs == [] then {} else {pairs[0].0} + Keys(pairs[1..])
  }

  /** `declare` defines every key of the mapping as a module without dependencies whose
      factory returns the declared value, and leaves every other entry alone. */
  lemma {:induction false} DeclaredEntries(t: Table, pairs: seq<(string, Value)>)
    requires forall i, j :: 0 <= i < j < |pairs| ==> pairs[i].0 != pairs[j].0
    ensures var d := Declared(t, pairs);
            && d.Keys == t.Keys + Keys(pairs)
            && (forall j :: 0 <= j < |pairs| ==> d[pairs[j].0] == Fresh([], Constant(pairs[j].1)))
            && (forall x :: x in t && x !in Keys(pairs) ==> d[x] == t[x])
    decreases |pairs|
  {
    if pairs != [] {
      var t1 := t[pairs[0].0 := Fresh([], Constant(pairs[0].1))];
      var rest := pairs[1..];
      forall i, j | 0 <= i < j < |rest|
        ensures rest[i].0 != rest[j].0
      {
        assert rest[i] == pairs[i + 1] && rest[j] == pairs[j + 1];
      }
      DeclaredEntries(t1, rest);
      var d := Declared(t, pairs);
      assert pairs[0].0 !in Keys(rest) by {
        forall j | 0 <= j < |rest|
          ensures rest[j].0 != pairs[0].0
        {
          assert rest[j] == pairs[j + 1];
        }
      }
      forall j | 0 <= j < |pairs|
        ensures d[pairs[j].0] == Fresh([], Constant(pairs[j].1))
      {
        if j > 0 {
          assert rest[j - 1] == pairs[j];
        }
      }
    }
  }

  /** A declared value is what `require` yields for its key, even when the value is a
      function: it is never called as a factory. */
  lemma DeclaredResolves(sc: Scope, t: Table, id: string, v: Value)
    requires id in t && t[id] == Fresh([], Constant(v))
    ensures ResolveOne(sc, t, id).result == Ok([v])
  {
    var t1 := t[id := t[id].(active := true)];
    assert Resolve(sc, t1, []) == Run(Ok([]), t1, []);
  }
}
