/** What `require` of mmd.js promises, stated about `Mmd.ResolveSlots`: the framework
    answers to `'mmd'` first, slots are overwritten positionally and keep their values
    when a later slot fails, dependency arrays are overwritten by their values, exports are
    memoised, each module is built once, and circular references throw. */
module MmdProperties {
  import opened Js
  import opened Mmd

  /** `x` is the id of a defined module. */
  predicate Names(t: Table, x: Value) {
    x.Str? && x.s in t
  }

  /** What a slot holding `x` stands for once resolved: the framework for `'mmd'`, and
      otherwise the export stored under the id. */
  function Lookup(sc: Scope, t: Table, x: Value): Value {
    if x == Str("mmd") then sc.me else if Names(t, x) then t[x.s].exports else Undefined
  }

  /** `run` followed by resolving `xs` on the table it leaves; after a failure the slots of
      `xs` keep their ids. */
  ghost function Continue(sc: Scope, run: Run, xs: seq<Value>): Run {
    if run.error.Some? then Run(run.error, run.slots + xs, run.table, run.built)
    else Then(run.slots, run.built, ResolveSlots(sc, run.table, xs))
  }

  /** Resolving `a + b` in place is resolving `a` and then `b` on the table `a` leaves. */
  lemma {:induction false} ResolveConcat(sc: Scope, t: Table, a: seq<Value>, b: seq<Value>)
    ensures ResolveSlots(sc, t, a + b) == Continue(sc, ResolveSlots(sc, t, a), b)
    decreases |a|
  {
    if a == [] {
      assert a + b == b;
      ThenNothing(ResolveSlots(sc, t, b));
    } else {
      assert (a + b)[0] == a[0] && (a + b)[1..] == a[1..] + b;
      var head := ResolveSlot(sc, t, a[0]);
      if head.result.Ok? {
        ResolveConcat(sc, head.table, a[1..], b);
        var rest := ResolveSlots(sc, head.table, a[1..]);
        if rest.error.None? {
          ThenThen([head.result.value], head.built, rest.slots, rest.built, ResolveSlots(sc, rest.table, b));
        } else {
          assert [head.result.value] + (rest.slots + b) == ([head.result.value] + rest.slots) + b;
        }
      }
    }
  }

  /** `u` is a table `require` can leave behind from `t`: the same ids and factories, and
      every entry with a truthy export or a set flag untouched. */
  ghost predicate Preserves(t: Table, u: Table) {
    && u.Keys == t.Keys
    && (forall x :: x in t ==> u[x].factory == t[x].factory)
    && (forall x :: x in t && (Built(t[x]) || t[x].active) ==> u[x] == t[x])
  }

  lemma PreservesTrans(t: Table, u: Table, v: Table)
    requires Preserves(t, u) && Preserves(u, v)
    ensures Preserves(t, v)
  {
  }

  /** Factories that return truthy values still do so in a table `require` leaves behind,
      for the ids of `c` when `c` is within `b`. */
  lemma TruthyKept(sc: Scope, t: Table, u: Table, b: seq<string>, c: seq<string>)
    requires Preserves(t, u) && forall y :: y in c ==> y in b
    requires forall y, args :: y in b && y in t ==> Truthy(Apply(sc.prog, t[y].factory, args))
    ensures forall y, args :: y in c && y in u ==> Truthy(Apply(sc.prog, u[y].factory, args))
  {
    forall y, args | y in c && y in u
      ensures Truthy(Apply(sc.prog, u[y].factory, args))
    {
      assert y in b && u[y].factory == t[y].factory;
    }
  }

  /** `require` never changes a factory, never touches an entry that is built or being
      built, and succeeds on a slot only when it holds `'mmd'` or the id of a defined module
      that is not being built, yielding what the table then holds for it. */
  lemma {:induction false} FrameOne(sc: Scope, t: Table, x: Value)
    ensures var st := ResolveSlot(sc, t, x);
            && Preserves(t, st.table)
            && (st.result.Ok? ==>
                  && (x == Str("mmd") || (Names(t, x) && (t[x.s].active ==> Built(t[x.s]))))
                  && st.result.value == Lookup(sc, st.table, x))
    decreases Idle(t), 0
  {
    if x != Str("mmd") && Names(t, x) && !Built(t[x.s]) && !t[x.s].active {
      var def := t[x.s];
      var t1 := t[x.s := def.(active := true)];
      IdleAfter(t, x.s, def.(active := true));
      Frame(sc, t1, def.deps);
      var sub := ResolveSlots(sc, t1, def.deps);
      var st := ResolveSlot(sc, t, x);
      assert st.table == sub.table[x.s := def.(deps := sub.slots, active := sub.error.Some?, exports := st.table[x.s].exports)];
    }
  }

  lemma {:induction false} Frame(sc: Scope, t: Table, xs: seq<Value>)
    ensures Preserves(t, ResolveSlots(sc, t, xs).table)
    decreases Idle(t), |xs|
  {
    if xs != [] {
      FrameOne(sc, t, xs[0]);
      var head := ResolveSlot(sc, t, xs[0]);
      if head.result.Ok? {
        Frame(sc, head.table, xs[1..]);
        PreservesTrans(t, head.table, ResolveSlots(sc, head.table, xs[1..]).table);
      }
    }
  }

  /** Slot `k` of a successful run holds what resolving `xs[k]` yields on the table the
      slots before it leave behind. */
  lemma PositionalStep(sc: Scope, t: Table, xs: seq<Value>, k: nat)
    requires k < |xs| && ResolveSlots(sc, t, xs).error.None?
    ensures var pre := ResolveSlots(sc, t, xs[..k]);
            && pre.error.None?
            && ResolveSlot(sc, pre.table, xs[k]).result == Ok(ResolveSlots(sc, t, xs).slots[k])
            && ResolveSlots(sc, t, xs) == Continue(sc, ResolveSlots(sc, t, xs[..k + 1]), xs[k + 1..])
  {
    assert xs == xs[..k] + xs[k..];
    ResolveConcat(sc, t, xs[..k], xs[k..]);
    assert xs == xs[..k + 1] + xs[k + 1..];
    ResolveConcat(sc, t, xs[..k + 1], xs[k + 1..]);
    assert xs[k..][0] == xs[k];
  }

  /** Slot `k` of a successful run holds the framework if it held `'mmd'`, even when a
      module `'mmd'` is defined; otherwise it held the id of a defined module that was not
      being built, and now holds the export that module has right after it is resolved; a
      truthy export it holds is the one the table keeps. */
  lemma Position(sc: Scope, t: Table, xs: seq<Value>, k: nat)
    requires k < |xs| && ResolveSlots(sc, t, xs).error.None?
    ensures var run := ResolveSlots(sc, t, xs);
            var after := ResolveSlots(sc, t, xs[..k + 1]).table;
            && (xs[k] == Str("mmd") ==> run.slots[k] == sc.me)
            && (xs[k] != Str("mmd") ==>
                  && Names(t, xs[k]) && (t[xs[k].s].active ==> Built(t[xs[k].s]))
                  && xs[k].s in after && run.slots[k] == after[xs[k].s].exports
                  && (Truthy(run.slots[k]) ==> xs[k].s in run.table && run.table[xs[k].s].exports == run.slots[k]))
  {
    PositionalStep(sc, t, xs, k);
    var pre := ResolveSlots(sc, t, xs[..k]);
    Frame(sc, t, xs[..k]);
    assert xs[..k + 1] == xs[..k] + [xs[k]];
    ResolveConcat(sc, t, xs[..k], [xs[k]]);
    var one := ResolveSlot(sc, pre.table, xs[k]);
    FrameOne(sc, pre.table, xs[k]);
    assert ResolveSlots(sc, pre.table, [xs[k]]) == Then([one.result.value], one.built, ResolveSlots(sc, one.table, []));
    assert ResolveSlots(sc, t, xs[..k + 1]).table == one.table;
    Frame(sc, one.table, xs[k + 1..]);
  }

  /** A successful `require` overwrites every slot positionally: `'mmd'` with the
      framework, the id of a defined module with its export. */
  lemma Positional(sc: Scope, t: Table, xs: seq<Value>)
    requires ResolveSlots(sc, t, xs).error.None?
    ensures var run := ResolveSlots(sc, t, xs);
            forall k :: 0 <= k < |xs| ==>
              && (xs[k] == Str("mmd") ==> run.slots[k] == sc.me)
              && (xs[k] != Str("mmd") ==> Names(t, xs[k]))
              && (xs[k] != Str("mmd") && Truthy(run.slots[k]) ==> xs[k].s in run.table && run.table[xs[k].s].exports == run.slots[k])
  {
    forall k | 0 <= k < |xs| {
      Position(sc, t, xs, k);
    }
  }

  /** A failed `require` stopped at some slot `k`: the slots before it hold their resolved
      values, slot `k` and the rest still hold their ids, and the error is the one slot `k`
      threw. */
  lemma {:induction false} PartialOverwrite(sc: Scope, t: Table, xs: seq<Value>)
    requires ResolveSlots(sc, t, xs).error.Some?
    ensures exists k :: 0 <= k < |xs| && FailedAt(sc, t, xs, k)
    decreases |xs|
  {
    var head := ResolveSlot(sc, t, xs[0]);
    if head.result.Err? {
      assert xs[..0] == [] && xs[0..] == xs;
      assert FailedAt(sc, t, xs, 0);
    } else {
      var rest := ResolveSlots(sc, head.table, xs[1..]);
      PartialOverwrite(sc, head.table, xs[1..]);
      var j :| 0 <= j < |xs[1..]| && FailedAt(sc, head.table, xs[1..], j);
      SliceTail(xs, j);
      var pre := ResolveSlots(sc, head.table, xs[1..][..j]);
      var st := ResolveSlot(sc, pre.table, xs[1..][j]);
      var pre' := ResolveSlots(sc, t, xs[..j + 1]);
      assert pre' == Then([head.result.value], head.built, pre);
      Concat3([head.result.value], pre.slots, xs[j + 1..]);
      Concat3(head.built, pre.built, st.built);
      assert FailedAt(sc, t, xs, j + 1);
    }
  }

  lemma SliceTail<T>(xs: seq<T>, j: nat)
    requires j + 1 < |xs|
    ensures xs[..j + 1] == [xs[0]] + xs[1..][..j] && xs[j + 1..] == xs[1..][j..] && xs[1..][j] == xs[j + 1]
  {
  }

  /** The run on `xs` failed at slot `k`. */
  ghost predicate FailedAt(sc: Scope, t: Table, xs: seq<Value>, k: nat)
    requires k < |xs|
  {
    var run := ResolveSlots(sc, t, xs);
    var pre := ResolveSlots(sc, t, xs[..k]);
    var st := ResolveSlot(sc, pre.table, xs[k]);
    && pre.error.None?
    && st.result.Err?
    && run == Run(Some(st.result.error), pre.slots + xs[k..], st.table, pre.built + st.built)
  }

  /** A slot holding neither `'mmd'` nor the id of a defined module makes the whole call
      fail, even when every other slot resolves. */
  lemma UndefinedAborts(sc: Scope, t: Table, xs: seq<Value>, k: nat)
    requires k < |xs| && xs[k] != Str("mmd") && !Names(t, xs[k])
    ensures ResolveSlots(sc, t, xs).error.Some?
  {
    if ResolveSlots(sc, t, xs).error.None? {
      Position(sc, t, xs, k);
    }
  }

  /** The first slot that fails because it names no module throws `<id> is undefined`,
      and the slots before it keep their resolved values. */
  lemma UndefinedError(sc: Scope, t: Table, xs: seq<Value>, k: nat)
    requires k < |xs| && xs[k] != Str("mmd") && !Names(t, xs[k])
    requires ResolveSlots(sc, t, xs[..k]).error.None?
    ensures var run := ResolveSlots(sc, t, xs);
            && run.error == Some(UndefinedModule(xs[k]))
            && run.slots == ResolveSlots(sc, t, xs[..k]).slots + xs[k..]
  {
    assert xs == xs[..k] + xs[k..];
    ResolveConcat(sc, t, xs[..k], xs[k..]);
    var pre := ResolveSlots(sc, t, xs[..k]);
    Frame(sc, t, xs[..k]);
    assert xs[k..][0] == xs[k];
    assert ResolveSlot(sc, pre.table, xs[k]).result == Err(UndefinedModule(xs[k]));
    assert ResolveSlots(sc, pre.table, xs[k..]) == Run(Some(UndefinedModule(xs[k])), xs[k..], pre.table, []);
  }

  /** Slots whose resolution needs no factory: `'mmd'`, and ids of modules with a truthy
      export. */
  ghost predicate Ready(t: Table, xs: seq<Value>) {
    forall k :: 0 <= k < |xs| ==> xs[k] == Str("mmd") || (Names(t, xs[k]) && Built(t[xs[k].s]))
  }

  /** What slots that are all `Ready` resolve to. */
  function Lookups(sc: Scope, t: Table, xs: seq<Value>): (vs: seq<Value>)
    ensures |vs| == |xs| && forall k :: 0 <= k < |xs| ==> vs[k] == Lookup(sc, t, xs[k])
  {
    if xs == [] then [] else [Lookup(sc, t, xs[0])] + Lookups(sc, t, xs[1..])
  }

  /** Once every requested module holds a truthy export, `require` hands the exports out,
      calls no factory and touches no entry. */
  lemma {:induction false} Memoised(sc: Scope, t: Table, xs: seq<Value>)
    requires Ready(t, xs)
    ensures ResolveSlots(sc, t, xs) == Run(None, Lookups(sc, t, xs), t, [])
    decreases |xs|
  {
    if xs != [] {
      assert forall k :: 0 <= k < |xs[1..]| ==> xs[1..][k] == xs[k + 1];
      Memoised(sc, t, xs[1..]);
      var head := ResolveSlot(sc, t, xs[0]);
      assert head == Step(Ok(Lookup(sc, t, xs[0])), t, []);
      var none: seq<string> := [];
      assert none + none == none;
    }
  }

  /** A factory is called only for a module that was defined, had no truthy export and
      was not being built; and an entry whose factory is not called keeps its export. */
  lemma {:induction false} BuildLogOne(sc: Scope, t: Table, x: Value)
    ensures var st := ResolveSlot(sc, t, x);
            && (forall y :: y in st.built ==> y in t && !Built(t[y]) && !t[y].active)
            && (forall y :: y in t && y in st.table && y !in st.built ==> st.table[y].exports == t[y].exports)
    decreases Idle(t), 0
  {
    if x != Str("mmd") && Names(t, x) && !Built(t[x.s]) && !t[x.s].active {
      var def := t[x.s];
      var t1 := t[x.s := def.(active := true)];
      IdleAfter(t, x.s, def.(active := true));
      BuildLog(sc, t1, def.deps);
    }
  }

  lemma {:induction false} BuildLog(sc: Scope, t: Table, xs: seq<Value>)
    ensures var run := ResolveSlots(sc, t, xs);
            && (forall y :: y in run.built ==> y in t && !Built(t[y]) && !t[y].active)
            && (forall y :: y in t && y in run.table && y !in run.built ==> run.table[y].exports == t[y].exports)
    decreases Idle(t), |xs|
  {
    if xs != [] {
      BuildLogOne(sc, t, xs[0]);
      FrameOne(sc, t, xs[0]);
      var head := ResolveSlot(sc, t, xs[0]);
      if head.result.Ok? {
        BuildLog(sc, head.table, xs[1..]);
        var rest := ResolveSlots(sc, head.table, xs[1..]);
        assert ResolveSlots(sc, t, xs).built == head.built + rest.built;
        forall y | y in rest.built
          ensures y in t && !Built(t[y]) && !t[y].active
        {
          assert y in head.table && !Built(head.table[y]) && !head.table[y].active;
        }
      }
    }
  }

  /** When the factories one slot calls return truthy values, it calls no factory twice,
      every module whose factory it called is built afterwards, and on success a slot
      naming a module is built. */
  lemma {:induction false} OnceOne(sc: Scope, t: Table, x: Value)
    requires forall y, args :: y in ResolveSlot(sc, t, x).built && y in t ==> Truthy(Apply(sc.prog, t[y].factory, args))
    ensures var st := ResolveSlot(sc, t, x);
            && NoDuplicates(st.built)
            && (forall y :: y in st.built ==> y in st.table && Built(st.table[y]))
            && (st.result.Ok? && x != Str("mmd") ==> x.s in st.table && Built(st.table[x.s]))
    decreases Idle(t), 0
  {
    FrameOne(sc, t, x);
    if x != Str("mmd") && Names(t, x) && !Built(t[x.s]) && !t[x.s].active {
      var def := t[x.s];
      var t1 := t[x.s := def.(active := true)];
      IdleAfter(t, x.s, def.(active := true));
      var sub := ResolveSlots(sc, t1, def.deps);
      var st := ResolveSlot(sc, t, x);
      assert st.built == if sub.error.None? then sub.built + [x.s] else sub.built;
      TruthyKept(sc, t, t1, st.built, sub.built);
      Once(sc, t1, def.deps);
      BuildLog(sc, t1, def.deps);
      if sub.error.None? {
        assert x.s in st.built;
        assert Truthy(Apply(sc.prog, def.factory, sub.slots));
        NoDuplicatesConcat(sub.built, [x.s]);
      }
    }
  }

  /** When the factories a `require` calls return truthy values, it calls no factory twice
      and every module whose factory it called stays built. */
  lemma {:induction false} Once(sc: Scope, t: Table, xs: seq<Value>)
    requires forall y, args :: y in ResolveSlots(sc, t, xs).built && y in t ==> Truthy(Apply(sc.prog, t[y].factory, args))
    ensures var run := ResolveSlots(sc, t, xs);
            && NoDuplicates(run.built)
            && (forall y :: y in run.built ==> y in run.table && Built(run.table[y]))
    decreases Idle(t), |xs|
  {
    if xs != [] {
      var head := ResolveSlot(sc, t, xs[0]);
      FrameOne(sc, t, xs[0]);
      if head.result.Err? {
        OnceOne(sc, t, xs[0]);
      } else {
        var rest := ResolveSlots(sc, head.table, xs[1..]);
        var run := ResolveSlots(sc, t, xs);
        assert run.built == head.built + rest.built;
        OnceOne(sc, t, xs[0]);
        TruthyKept(sc, t, head.table, run.built, rest.built);
        Once(sc, head.table, xs[1..]);
        BuildLog(sc, head.table, xs[1..]);
        Frame(sc, head.table, xs[1..]);
        NoDuplicatesConcat(head.built, rest.built);
      }
    }
  }

  /** When the factories a successful `require` calls return truthy values, every slot
      other than `'mmd'` named a defined module, which is now built. */
  lemma {:induction false} RequestedBuilt(sc: Scope, t: Table, xs: seq<Value>)
    requires forall y, args :: y in ResolveSlots(sc, t, xs).built && y in t ==> Truthy(Apply(sc.prog, t[y].factory, args))
    ensures var run := ResolveSlots(sc, t, xs);
            run.error.None? ==> forall k :: 0 <= k < |xs| && xs[k] != Str("mmd") ==> Names(run.table, xs[k]) && Built(run.table[xs[k].s])
    decreases |xs|
  {
    if xs != [] {
      var head := ResolveSlot(sc, t, xs[0]);
      FrameOne(sc, t, xs[0]);
      if head.result.Ok? {
        var rest := ResolveSlots(sc, head.table, xs[1..]);
        var run := ResolveSlots(sc, t, xs);
        assert run.built == head.built + rest.built;
        OnceOne(sc, t, xs[0]);
        TruthyKept(sc, t, head.table, run.built, rest.built);
        RequestedBuilt(sc, head.table, xs[1..]);
        Frame(sc, head.table, xs[1..]);
        if rest.error.None? {
          forall k | 0 <= k < |xs| && xs[k] != Str("mmd")
            ensures Names(rest.table, xs[k]) && Built(rest.table[xs[k].s])
          {
            if k > 0 {
              assert xs[1..][k - 1] == xs[k];
            }
          }
        }
      }
    }
  }

  /** A successful resolution leaves every entry whose factory it did not call exactly as
      it was, dependency array included. */
  lemma {:induction false} UntouchedOne(sc: Scope, t: Table, x: Value)
    ensures var st := ResolveSlot(sc, t, x);
            st.result.Ok? ==> forall y :: y in t && y !in st.built ==> y in st.table && st.table[y] == t[y]
    decreases Idle(t), 0
  {
    FrameOne(sc, t, x);
    if x != Str("mmd") && Names(t, x) && !Built(t[x.s]) && !t[x.s].active {
      var id := x.s;
      var def := t[id];
      var t1 := t[id := def.(active := true)];
      IdleAfter(t, id, def.(active := true));
      Untouched(sc, t1, def.deps);
      Frame(sc, t1, def.deps);
      var sub := ResolveSlots(sc, t1, def.deps);
      if sub.error.None? {
        var e := Apply(sc.prog, def.factory, sub.slots);
        assert ResolveSlot(sc, t, x) == Step(Ok(e), sub.table[id := def.(deps := sub.slots, exports := e)], sub.built + [id]);
      }
    }
  }

  lemma {:induction false} Untouched(sc: Scope, t: Table, xs: seq<Value>)
    ensures var run := ResolveSlots(sc, t, xs);
            run.error.None? ==> forall y :: y in t && y !in run.built ==> y in run.table && run.table[y] == t[y]
    decreases Idle(t), |xs|
  {
    if xs != [] {
      UntouchedOne(sc, t, xs[0]);
      FrameOne(sc, t, xs[0]);
      var head := ResolveSlot(sc, t, xs[0]);
      if head.result.Ok? {
        Untouched(sc, head.table, xs[1..]);
        var rest := ResolveSlots(sc, head.table, xs[1..]);
        assert ResolveSlots(sc, t, xs).built == head.built + rest.built;
      }
    }
  }

  /** Every dependency slot naming a defined module (as the array stood in `t`) of a module
      whose factory was called names a module with a truthy export in `u`. */
  ghost predicate DepsReady(t: Table, built: seq<string>, u: Table) {
    forall y, j :: y in built && y in t && 0 <= j < |t[y].deps| && t[y].deps[j] != Str("mmd") && Names(t, t[y].deps[j]) ==>
      Names(u, t[y].deps[j]) && Built(u[t[y].deps[j].s])
  }

  /** When the factories it calls return truthy values, a successful resolution leaves
      every dependency of each module it built built as well. */
  lemma {:induction false} DepsBuiltOne(sc: Scope, t: Table, x: Value)
    requires forall y, args :: y in ResolveSlot(sc, t, x).built && y in t ==> Truthy(Apply(sc.prog, t[y].factory, args))
    ensures var st := ResolveSlot(sc, t, x);
            st.result.Ok? ==> DepsReady(t, st.built, st.table)
    decreases Idle(t), 0
  {
    if x != Str("mmd") && Names(t, x) && !Built(t[x.s]) && !t[x.s].active {
      var id := x.s;
      var def := t[id];
      var t1 := t[id := def.(active := true)];
      IdleAfter(t, id, def.(active := true));
      var sub := ResolveSlots(sc, t1, def.deps);
      if sub.error.None? {
        var e := Apply(sc.prog, def.factory, sub.slots);
        var st := ResolveSlot(sc, t, x);
        assert st == Step(Ok(e), sub.table[id := def.(deps := sub.slots, exports := e)], sub.built + [id]);
        TruthyKept(sc, t, t1, st.built, sub.built);
        DepsBuilt(sc, t1, def.deps);
        RequestedBuilt(sc, t1, def.deps);
        forall y, j | y in st.built && y in t && 0 <= j < |t[y].deps| && t[y].deps[j] != Str("mmd") && Names(t, t[y].deps[j])
          ensures Names(st.table, t[y].deps[j]) && Built(st.table[t[y].deps[j].s])
        {
          var d := t[y].deps[j];
          if d.s != id {
            if y == id {
              assert def.deps[j] == d;
            } else {
              assert y in sub.built && t1[y] == t[y];
            }
          }
        }
      }
    }
  }

  lemma {:induction false} DepsBuilt(sc: Scope, t: Table, xs: seq<Value>)
    requires forall y, args :: y in ResolveSlots(sc, t, xs).built && y in t ==> Truthy(Apply(sc.prog, t[y].factory, args))
    ensures var run := ResolveSlots(sc, t, xs);
            run.error.None? ==> DepsReady(t, run.built, run.table)
    decreases Idle(t), |xs|
  {
    if xs != [] {
      UntouchedOne(sc, t, xs[0]);
      FrameOne(sc, t, xs[0]);
      var head := ResolveSlot(sc, t, xs[0]);
      if head.result.Ok? {
        var rest := ResolveSlots(sc, head.table, xs[1..]);
        var run := ResolveSlots(sc, t, xs);
        assert run.built == head.built + rest.built && run.table == rest.table;
        DepsBuiltOne(sc, t, xs[0]);
        TruthyKept(sc, t, head.table, run.built, rest.built);
        DepsBuilt(sc, head.table, xs[1..]);
        Frame(sc, head.table, xs[1..]);
        if rest.error.None? {
          forall y, j | y in run.built && y in t && 0 <= j < |t[y].deps| && t[y].deps[j] != Str("mmd") && Names(t, t[y].deps[j])
            ensures Names(run.table, t[y].deps[j]) && Built(run.table[t[y].deps[j].s])
          {
            if y !in head.built {
              assert y in rest.built && head.table[y] == t[y];
            }
          }
        }
      }
    }
  }

  /** When the factories a successful `require` calls return truthy values, it calls the
      factory of every requested module that had no truthy export and of every such
      dependency of a module it builds, and calls no factory more than once, so a
      dependency shared by several modules or repeated in the array is built once. */
  lemma ExactlyOnce(sc: Scope, t: Table, xs: seq<Value>)
    requires forall y, args :: y in ResolveSlots(sc, t, xs).built && y in t ==> Truthy(Apply(sc.prog, t[y].factory, args))
    requires ResolveSlots(sc, t, xs).error.None?
    ensures var run := ResolveSlots(sc, t, xs);
            && NoDuplicates(run.built)
            && (forall y :: y in run.built ==> y in t && !Built(t[y]))
            && (forall k :: 0 <= k < |xs| && Names(t, xs[k]) && !Built(t[xs[k].s]) && xs[k] != Str("mmd") ==> xs[k].s in run.built)
            && (forall y, j ::
                  y in run.built && 0 <= j < |t[y].deps| && t[y].deps[j] != Str("mmd") && Names(t, t[y].deps[j]) && !Built(t[t[y].deps[j].s])
                  ==> t[y].deps[j].s in run.built)
  {
    Once(sc, t, xs);
    RequestedBuilt(sc, t, xs);
    BuildLog(sc, t, xs);
    DepsBuilt(sc, t, xs);
  }

  /** In log `b`, the module built at position `i` is named in the dependency array of the
      module built at the later position `j`. */
  ghost predicate NeededBy(t: Table, b: seq<string>, i: int, j: int) {
    0 <= i < j < |b| && b[j] in t && Str(b[i]) in t[b[j]].deps
  }

  /** Log `b` is in post-order for the array `xs`: each factory call is for a module named
      in `xs` or in the dependency array of a module whose factory is called later. */
  ghost predicate PostOrder(t: Table, b: seq<string>, xs: seq<Value>) {
    forall i :: 0 <= i < |b| ==> Str(b[i]) in xs || exists j :: NeededBy(t, b, i, j)
  }

  /** The module built at position `i` of log `b` is wanted by the request: it is named in
      `xs`, or in the dependency array of a wanted module built later. */
  ghost predicate Wanted(t: Table, b: seq<string>, xs: seq<Value>, i: int)
    decreases |b| - i
  {
    0 <= i < |b| && (Str(b[i]) in xs || exists j :: NeededBy(t, b, i, j) && Wanted(t, b, xs, j))
  }

  /** A log in post-order builds only wanted modules: from every factory call a chain of
      dependency edges to later calls ends at a requested module, so modules that only
      name each other are never built. */
  lemma {:induction false} PostOrderWanted(t: Table, b: seq<string>, xs: seq<Value>, i: nat)
    requires PostOrder(t, b, xs) && i < |b|
    ensures Wanted(t, b, xs, i)
    decreases |b| - i
  {
    if Str(b[i]) !in xs {
      var j :| NeededBy(t, b, i, j);
      PostOrderWanted(t, b, xs, j);
    }
  }

  /** A build's log: the nested calls for its dependency array, in post-order on the
      flagged table, then the module itself. */
  lemma PostOrderBuild(t: Table, t1: Table, h: seq<string>, id: string)
    requires id in t && PostOrder(t1, h, t[id].deps)
    requires forall j :: 0 <= j < |h| && h[j] in t1 ==> h[j] in t && t1[h[j]].deps == t[h[j]].deps
    ensures PostOrder(t, h + [id], [Str(id)])
  {
    var b := h + [id];
    forall i | 0 <= i < |b| && Str(b[i]) !in [Str(id)]
      ensures exists j :: NeededBy(t, b, i, j)
    {
      assert i < |h| && b[i] == h[i];
      if Str(h[i]) in t[id].deps {
        assert NeededBy(t, b, i, |h|);
      } else {
        var j :| NeededBy(t1, h, i, j);
        assert b[j] == h[j];
        assert NeededBy(t, b, i, j);
      }
    }
  }

  /** Two logs in post-order, the second on a table with the same dependency arrays, make
      one in post-order for the whole array. */
  lemma PostOrderConcat(t: Table, u: Table, h: seq<string>, r: seq<string>, a: seq<Value>, c: seq<Value>, xs: seq<Value>)
    requires PostOrder(t, h, a) && PostOrder(u, r, c)
    requires (forall x :: x in a ==> x in xs) && (forall x :: x in c ==> x in xs)
    requires forall j :: 0 <= j < |r| && r[j] in u ==> r[j] in t && u[r[j]].deps == t[r[j]].deps
    ensures PostOrder(t, h + r, xs)
  {
    var b := h + r;
    forall i | 0 <= i < |b| && Str(b[i]) !in xs
      ensures exists j :: NeededBy(t, b, i, j)
    {
      if i < |h| {
        assert b[i] == h[i] && Str(h[i]) !in a;
        var j :| NeededBy(t, h, i, j);
        assert b[j] == h[j];
        assert NeededBy(t, b, i, j);
      } else {
        var i' := i - |h|;
        assert b[i] == r[i'] && Str(r[i']) !in c;
        var j :| NeededBy(u, r, i', j);
        assert b[j + |h|] == r[j];
        assert NeededBy(t, b, i, j + |h|);
      }
    }
  }

  /** `require` is lazy: when the factories it calls return truthy values, a successful
      resolution of slot `x` calls factories in post-order, for the module `x` names last
      and before that only for modules named in the dependency array (as it stood in `t`)
      of a module built later. */
  lemma {:induction false} LazyOne(sc: Scope, t: Table, x: Value)
    requires forall y, args :: y in ResolveSlot(sc, t, x).built && y in t ==> Truthy(Apply(sc.prog, t[y].factory, args))
    ensures var st := ResolveSlot(sc, t, x);
            st.result.Ok? ==> PostOrder(t, st.built, [x])
    decreases Idle(t), 0
  {
    if x != Str("mmd") && Names(t, x) && !Built(t[x.s]) && !t[x.s].active {
      var id := x.s;
      var def := t[id];
      var t1 := t[id := def.(active := true)];
      IdleAfter(t, id, def.(active := true));
      var sub := ResolveSlots(sc, t1, def.deps);
      var st := ResolveSlot(sc, t, x);
      if sub.error.None? {
        assert st.built == sub.built + [id];
        TruthyKept(sc, t, t1, st.built, sub.built);
        Lazy(sc, t1, def.deps);
        PostOrderBuild(t, t1, sub.built, id);
      }
    }
  }

  /** When the factories a successful `require` calls return truthy values, it calls
      factories in post-order for the array, so (by `PostOrderWanted`) it builds nothing
      the request does not need. */
  lemma {:induction false} Lazy(sc: Scope, t: Table, xs: seq<Value>)
    requires forall y, args :: y in ResolveSlots(sc, t, xs).built && y in t ==> Truthy(Apply(sc.prog, t[y].factory, args))
    ensures var run := ResolveSlots(sc, t, xs);
            run.error.None? ==> PostOrder(t, run.built, xs)
    decreases Idle(t), |xs|
  {
    if xs != [] {
      FrameOne(sc, t, xs[0]);
      var head := ResolveSlot(sc, t, xs[0]);
      if head.result.Ok? {
        var rest := ResolveSlots(sc, head.table, xs[1..]);
        var run := ResolveSlots(sc, t, xs);
        assert run.built == head.built + rest.built;
        LazyOne(sc, t, xs[0]);
        OnceOne(sc, t, xs[0]);
        TruthyKept(sc, t, head.table, run.built, rest.built);
        Lazy(sc, head.table, xs[1..]);
        if rest.error.None? {
          UntouchedOne(sc, t, xs[0]);
          BuildLog(sc, head.table, xs[1..]);
          forall j | 0 <= j < |rest.built| && rest.built[j] in head.table
            ensures rest.built[j] in t && head.table[rest.built[j]].deps == t[rest.built[j]].deps
          {
            var y := rest.built[j];
            assert y in rest.built && !Built(head.table[y]) && y !in head.built;
          }
          assert xs == [xs[0]] + xs[1..];
          PostOrderConcat(t, head.table, head.built, rest.built, [xs[0]], xs[1..], xs);
        }
      }
    }
  }

  /** When the factories a successful `require` calls return truthy values, requiring the
      same ids again yields the same values, calls no factory and leaves the table as it
      is. */
  lemma SecondRequire(sc: Scope, t: Table, xs: seq<Value>)
    requires forall y, args :: y in ResolveSlots(sc, t, xs).built && y in t ==> Truthy(Apply(sc.prog, t[y].factory, args))
    requires ResolveSlots(sc, t, xs).error.None?
    ensures var run := ResolveSlots(sc, t, xs);
            ResolveSlots(sc, run.table, xs) == Run(None, run.slots, run.table, [])
  {
    var run := ResolveSlots(sc, t, xs);
    RequestedBuilt(sc, t, xs);
    Frame(sc, t, xs);
    forall k | 0 <= k < |xs|
      ensures xs[k] == Str("mmd") || (Names(run.table, xs[k]) && Built(run.table[xs[k].s]))
      ensures run.slots[k] == Lookup(sc, run.table, xs[k])
    {
      Position(sc, t, xs, k);
      if xs[k] != Str("mmd") {
        assert xs[..k + 1][k] == xs[k];
        PositionalStep(sc, t, xs, k);
        var pre := ResolveSlots(sc, t, xs[..k + 1]);
        assert pre.error.None? && run.built == pre.built + ResolveSlots(sc, pre.table, xs[k + 1..]).built;
        RequestedBuilt(sc, t, xs[..k + 1]);
      }
    }
    Memoised(sc, run.table, xs);
    assert run.slots == Lookups(sc, run.table, xs);
  }

  /** Building a module overwrites its stored dependency array with the resolved values,
      which are also the factory's arguments; when the build fails the array keeps the
      values resolved before the failure and the module stays flagged. */
  lemma DepsOverwritten(sc: Scope, t: Table, id: string)
    requires id in t && id != "mmd" && !Built(t[id]) && !t[id].active
    ensures var t1 := t[id := t[id].(active := true)];
            var sub := ResolveSlots(sc, t1, t[id].deps);
            var st := ResolveSlot(sc, t, Str(id));
            && id in st.table && st.table[id].deps == sub.slots
            && (st.result.Ok? ==> st.table[id].exports == Apply(sc.prog, t[id].factory, st.table[id].deps) && !st.table[id].active)
            && (st.result.Err? ==> st.table[id].active)
            && (sub.error.None? ==> forall k :: 0 <= k < |t[id].deps| && t[id].deps[k] != Str("mmd") ==>
                  Names(t, t[id].deps[k]) && t[id].deps[k].s != id)
  {
    var t1 := t[id := t[id].(active := true)];
    var sub := ResolveSlots(sc, t1, t[id].deps);
    Frame(sc, t1, t[id].deps);
    if sub.error.None? {
      forall k | 0 <= k < |t[id].deps| && t[id].deps[k] != Str("mmd")
        ensures Names(t, t[id].deps[k]) && t[id].deps[k].s != id
      {
        Position(sc, t1, t[id].deps, k);
      }
    }
  }

  /** Membership in a trap, named so that a proof instantiates `Trap` only for the ids it
      mentions. */
  ghost predicate InTrap(s: set<string>, x: string) {
    x in s
  }

  /** A set of defined modules without truthy exports, each with a dependency slot naming
      one of the set: a circular dependency that no build can complete. */
  ghost predicate Trap(t: Table, s: set<string>) {
    && s <= t.Keys
    && "mmd" !in s
    && forall x {:trigger InTrap(s, x)} :: InTrap(s, x) ==>
         && !Built(t[x])
         && exists k :: 0 <= k < |t[x].deps| && t[x].deps[k].Str? && t[x].deps[k].s in s
  }

  /** Resolving a module of a trap fails; anything else, when it succeeds, leaves the
      trap's entries as they were. */
  lemma {:induction false} TrapOne(sc: Scope, t: Table, s: set<string>, x: Value)
    requires Trap(t, s)
    ensures var st := ResolveSlot(sc, t, x);
            st.result.Ok? ==> !(x.Str? && x.s in s) && forall y :: y in s ==> y in st.table && st.table[y] == t[y]
    decreases Idle(t), 0
  {
    if x.Str? && x.s in s {
      assert InTrap(s, x.s);
    }
    if x != Str("mmd") && Names(t, x) && !Built(t[x.s]) && !t[x.s].active {
      var id := x.s;
      var def := t[id];
      var t1 := t[id := def.(active := true)];
      IdleAfter(t, id, def.(active := true));
      assert Trap(t1, s) by {
        forall y | InTrap(s, y)
          ensures !Built(t1[y]) && exists k :: 0 <= k < |t1[y].deps| && t1[y].deps[k].Str? && t1[y].deps[k].s in s
        {
          assert t1[y].deps == t[y].deps && t1[y].exports == t[y].exports;
        }
      }
      TrapMany(sc, t1, s, def.deps);
      var sub := ResolveSlots(sc, t1, def.deps);
      if id in s {
        var k :| 0 <= k < |def.deps| && def.deps[k].Str? && def.deps[k].s in s;
        assert sub.error.Some?;
      } else if sub.error.None? {
        var e := Apply(sc.prog, def.factory, sub.slots);
        assert ResolveSlot(sc, t, x).table == sub.table[id := def.(deps := sub.slots, exports := e)];
        assert forall y :: y in s ==> y != id && t1[y] == t[y];
      }
    }
  }

  lemma {:induction false} TrapMany(sc: Scope, t: Table, s: set<string>, xs: seq<Value>)
    requires Trap(t, s)
    ensures var run := ResolveSlots(sc, t, xs);
            run.error.None? ==>
              && (forall k :: 0 <= k < |xs| ==> !(xs[k].Str? && xs[k].s in s))
              && forall y :: y in s ==> y in run.table && run.table[y] == t[y]
    decreases Idle(t), |xs|
  {
    if xs != [] {
      TrapOne(sc, t, s, xs[0]);
      var head := ResolveSlot(sc, t, xs[0]);
      if head.result.Ok? {
        assert Trap(head.table, s) by {
          forall y | InTrap(s, y)
            ensures !Built(head.table[y]) && exists k :: 0 <= k < |head.table[y].deps| && head.table[y].deps[k].Str? && head.table[y].deps[k].s in s
          {
            assert head.table[y] == t[y];
          }
        }
        TrapMany(sc, head.table, s, xs[1..]);
        if ResolveSlots(sc, head.table, xs[1..]).error.None? {
          forall k | 1 <= k < |xs|
            ensures !(xs[k].Str? && xs[k].s in s)
          {
            assert xs[1..][k - 1] == xs[k];
          }
        }
      }
    }
  }

  /** Requiring a module caught in a circular dependency throws, whatever else is in the
      array. */
  lemma CycleFails(sc: Scope, t: Table, s: set<string>, xs: seq<Value>, k: nat)
    requires Trap(t, s) && k < |xs| && xs[k].Str? && xs[k].s in s
    ensures ResolveSlots(sc, t, xs).error.Some?
  {
    TrapMany(sc, t, s, xs);
  }

  /** A set of defined modules without truthy exports, other than `'mmd'`, each of which
      has its first dependency slot naming a module of the set: every closed cycle such as
      `a -> b -> c -> a` is one. */
  ghost predicate Cycle(t: Table, s: set<string>) {
    && s <= t.Keys
    && "mmd" !in s
    && forall x {:trigger InTrap(s, x)} :: InTrap(s, x) ==>
         && !Built(t[x])
         && |t[x].deps| > 0
         && t[x].deps[0].Str? && t[x].deps[0].s in s
  }

  /** A cycle stays one in a table that leaves its entries as they were. */
  lemma CycleKept(t: Table, u: Table, s: set<string>)
    requires Cycle(t, s) && forall x :: x in s ==> x in u && u[x].deps == t[x].deps && u[x].exports == t[x].exports
    ensures Cycle(u, s)
  {
    forall x | InTrap(s, x)
      ensures !Built(u[x]) && |u[x].deps| > 0 && u[x].deps[0].Str? && u[x].deps[0].s in s
    {
      assert InTrap(s, x);
    }
  }

  /** Requiring a module of a cycle throws `circular reference` for a module of the
      cycle, once the descent comes back to a module it flagged. */
  lemma {:induction false} CycleErrorOne(sc: Scope, t: Table, s: set<string>, id: string)
    requires Cycle(t, s) && id in s
    ensures exists y :: y in s && ResolveSlot(sc, t, Str(id)).result == Err(CircularReference(y))
    decreases Idle(t)
  {
    assert InTrap(s, id);
    var def := t[id];
    if def.active {
      assert ResolveSlot(sc, t, Str(id)).result == Err(CircularReference(id));
    } else {
      var t1 := t[id := def.(active := true)];
      IdleAfter(t, id, def.(active := true));
      CycleKept(t, t1, s);
      CycleErrorOne(sc, t1, s, def.deps[0].s);
      var y :| y in s && ResolveSlot(sc, t1, def.deps[0]).result == Err(CircularReference(y));
      assert ResolveSlots(sc, t1, def.deps).error == Some(CircularReference(y));
      assert ResolveSlot(sc, t, Str(id)).result == Err(CircularReference(y));
    }
  }

  /** An array whose slots before `xs[k]` resolve, and `xs[k]` names a module of a
      cycle, throws `circular reference` for a module of the cycle. */
  lemma CycleError(sc: Scope, t: Table, s: set<string>, xs: seq<Value>, k: nat)
    requires Cycle(t, s) && k < |xs| && xs[k].Str? && xs[k].s in s
    requires ResolveSlots(sc, t, xs[..k]).error.None?
    ensures exists y :: y in s && ResolveSlots(sc, t, xs).error == Some(CircularReference(y))
  {
    assert Trap(t, s) by {
      forall x | InTrap(s, x)
        ensures !Built(t[x]) && exists j :: 0 <= j < |t[x].deps| && t[x].deps[j].Str? && t[x].deps[j].s in s
      {
        assert t[x].deps[0].Str? && t[x].deps[0].s in s;
      }
    }
    TrapMany(sc, t, s, xs[..k]);
    var pre := ResolveSlots(sc, t, xs[..k]);
    CycleKept(t, pre.table, s);
    CycleErrorOne(sc, pre.table, s, xs[k].s);
    var y :| y in s && ResolveSlot(sc, pre.table, xs[k]).result == Err(CircularReference(y));
    assert xs == xs[..k] + xs[k..];
    ResolveConcat(sc, t, xs[..k], xs[k..]);
    assert xs[k..][0] == xs[k];
    assert ResolveSlots(sc, pre.table, xs[k..]).error == Some(CircularReference(y));
  }

  /** A module that names itself in its dependency array throws `circular reference to
      id` once the slots before that entry resolve. */
  lemma SelfDependency(sc: Scope, t: Table, id: string, k: nat)
    requires id in t && id != "mmd" && !Built(t[id]) && !t[id].active && k < |t[id].deps| && t[id].deps[k] == Str(id)
    requires ResolveSlots(sc, t[id := t[id].(active := true)], t[id].deps[..k]).error.None?
    ensures ResolveSlot(sc, t, Str(id)).result == Err(CircularReference(id))
  {
    var deps := t[id].deps;
    var t1 := t[id := t[id].(active := true)];
    Frame(sc, t1, deps[..k]);
    var pre := ResolveSlots(sc, t1, deps[..k]);
    assert pre.table[id] == t1[id];
    assert deps == deps[..k] + deps[k..];
    ResolveConcat(sc, t1, deps[..k], deps[k..]);
    assert deps[k..][0] == Str(id);
    assert ResolveSlots(sc, pre.table, deps[k..]).error == Some(CircularReference(id));
  }

  /** A build whose dependencies throw leaves the module's flag set: requiring it again
      later throws `circular reference to id`, though no cycle exists. */
  lemma StaleFlag(sc: Scope, t: Table, id: string)
    requires id in t && id != "mmd" && !Built(t[id]) && !t[id].active
    requires ResolveSlots(sc, t[id := t[id].(active := true)], t[id].deps).error.Some?
    ensures var st := ResolveSlot(sc, t, Str(id));
            && st.result.Err?
            && id in st.table && st.table[id].active
            && ResolveSlot(sc, st.table, Str(id)).result == Err(CircularReference(id))
  {
    var t1 := t[id := t[id].(active := true)];
    Frame(sc, t1, t[id].deps);
  }
}
