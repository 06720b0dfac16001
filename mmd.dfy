/** mmd.js: Micro Module Definition, one registry held in a closure.

    `define` finds its id, dependency list and factory among its arguments by type;
    `require` resolves the ids of an array in place, overwriting each slot with the
    resolved value, builds modules lazily, memoises their exports and detects circular
    references with an active flag. The framework itself answers to `'mmd'`, before any
    module of that name.

    `ResolveSlots` is the meaning of `require` as a function of the table;
    `Framework.Require` is the loop of the source, proved to compute it. */
module Mmd {
  import opened Js

  /** A module definition `{d: dependencies, f: factory}` with the memoised export `e` and
      the active flag `p` that `require` adds. `d` holds ids until `require` overwrites its
      slots with the resolved values. */
  datatype Definition = Definition(deps: seq<Value>, factory: Function, exports: Value, active: bool)

  type Table = map<string, Definition>

  /** `mod.e` is truthy, so `require` hands it out instead of calling the factory. */
  predicate Built(d: Definition) {
    Truthy(d.exports)
  }

  /** The defined ids whose active flag is clear; every descent of `require` flags one. */
  ghost function Idle(t: Table): set<string> {
    set id | id in t && !t[id].active
  }

  lemma IdleAfter(t: Table, id: string, d: Definition)
    ensures Idle(t[id := d]) == if d.active then Idle(t) - {id} else Idle(t) + {id}
  {
  }

  /** What `require` resolves against besides the table: the behaviour of user functions
      and the framework object `this`. */
  datatype Scope = Scope(prog: Program, me: Value)

  /** The outcome of resolving one slot: its value or the error thrown, the table
      afterwards, and the ids whose factories were called, in call order. */
  datatype Step = Step(result: Result<Value>, table: Table, built: seq<string>)

  /** The outcome of resolving an array: the error thrown if any, the array's contents
      afterwards, the table afterwards and the factory calls. */
  datatype Run = Run(error: Option<Error>, slots: seq<Value>, table: Table, built: seq<string>)

  /** `run` preceded by slots `vs` already resolved and factory calls `calls`. */
  function Then(vs: seq<Value>, calls: seq<string>, run: Run): Run {
    Run(run.error, vs + run.slots, run.table, calls + run.built)
  }

  lemma ThenNothing(run: Run)
    ensures Then([], [], run) == run
  {
    assert [] + run.slots == run.slots;
    assert [] + run.built == run.built;
  }

  lemma ThenThen(vs: seq<Value>, calls: seq<string>, ws: seq<Value>, calls': seq<string>, run: Run)
    ensures Then(vs, calls, Then(ws, calls', run)) == Then(vs + ws, calls + calls', run)
  {
    assert calls + (calls' + run.built) == (calls + calls') + run.built;
    assert vs + (ws + run.slots) == (vs + ws) + run.slots;
  }

  /** Resolving the rest of an array from slot `|done|` on, when that slot succeeds: its
      value joins the resolved prefix and its factory calls the log. */
  lemma StepOk(sc: Scope, t: Table, xs: seq<Value>, done: seq<Value>, calls: seq<string>)
    requires |done| < |xs| && ResolveSlot(sc, t, xs[|done|]).result.Ok?
    ensures var step := ResolveSlot(sc, t, xs[|done|]);
            Then(done, calls, ResolveSlots(sc, t, xs[|done|..]))
              == Then(done + [step.result.value], calls + step.built, ResolveSlots(sc, step.table, xs[|done| + 1..]))
  {
    var i := |done|;
    var step := ResolveSlot(sc, t, xs[i]);
    assert xs[i..][0] == xs[i] && xs[i..][1..] == xs[i + 1..];
    ThenThen(done, calls, [step.result.value], step.built, ResolveSlots(sc, step.table, xs[i + 1..]));
  }

  /** The same when that slot throws: the array keeps its ids from that slot on. */
  lemma StepErr(sc: Scope, t: Table, xs: seq<Value>, done: seq<Value>, calls: seq<string>)
    requires |done| < |xs| && ResolveSlot(sc, t, xs[|done|]).result.Err?
    ensures var step := ResolveSlot(sc, t, xs[|done|]);
            Then(done, calls, ResolveSlots(sc, t, xs[|done|..]))
              == Run(Some(step.result.error), done + xs[|done|..], step.table, calls + step.built)
  {
    assert xs[|done|..][0] == xs[|done|];
  }

  /** Overwriting the first unresolved slot moves it into the resolved prefix. */
  lemma Overwrite<T>(done: seq<T>, xs: seq<T>, v: T)
    requires |done| < |xs|
    ensures (done + xs[|done|..])[|done| := v] == (done + [v]) + xs[|done| + 1..]
  {
  }

  /** Resolving one slot holding `x` (the body of the loop at mmd.js:40-78): `'mmd'` gives
      the framework; a defined id gives its export if that is truthy, throws if its flag is
      set, and otherwise is flagged, has its own dependency array resolved in place and its
      factory applied to the result, and stores that array and the export with the flag
      cleared. A failed build stores the partly overwritten array and keeps the flag set.
      Anything else throws. A success leaves as many flags set as before. */
  ghost function ResolveSlot(sc: Scope, t: Table, x: Value): (st: Step)
    ensures st.result.Ok? ==> Idle(st.table) == Idle(t)
    decreases Idle(t), 0
  {
    if x == Str("mmd") then
      Step(Ok(sc.me), t, [])
    else if x.Str? && x.s in t then
      var id := x.s;
      var def := t[id];
      if Built(def) then
        Step(Ok(def.exports), t, [])
      else if def.active then
        Step(Err(CircularReference(id)), t, [])
      else
        var t1 := t[id := def.(active := true)];
        IdleAfter(t, id, def.(active := true));
        var sub := ResolveSlots(sc, t1, def.deps);
        if sub.error.Some? then
          Step(Err(sub.error.value), sub.table[id := def.(deps := sub.slots, active := true)], sub.built)
        else
          var e := Apply(sc.prog, def.factory, sub.slots);
          IdleAfter(sub.table, id, def.(deps := sub.slots, exports := e));
          Step(Ok(e), sub.table[id := def.(deps := sub.slots, exports := e)], sub.built + [id])
    else
      Step(Err(UndefinedModule(x)), t, [])
  }

  /** `require(dependencies)` on the array `xs` (mmd.js:31-87): the slots resolved one after
      the other; at the first error the slots before it hold their values and the rest
      their ids. */
  ghost function ResolveSlots(sc: Scope, t: Table, xs: seq<Value>): (run: Run)
    ensures |run.slots| == |xs|
    ensures run.error.None? ==> Idle(run.table) == Idle(t)
    decreases Idle(t), |xs|
  {
    if xs == [] then Run(None, [], t, [])
    else
      var head := ResolveSlot(sc, t, xs[0]);
      if head.result.Err? then Run(Some(head.result.error), xs, head.table, head.built)
      else Then([head.result.value], head.built, ResolveSlots(sc, head.table, xs[1..]))
  }

  /** The index of the first argument whose `typeof` is `ty`, or the number of arguments. */
  function FirstOfType(args: seq<Value>, ty: JsType): (i: nat)
    ensures i <= |args|
    ensures forall j :: 0 <= j < i ==> TypeOf(args[j]) != ty
    ensures i < |args| ==> TypeOf(args[i]) == ty
  {
    if args == [] then 0
    else if TypeOf(args[0]) == ty then 0
    else 1 + FirstOfType(args[1..], ty)
  }

  /** `getArgument(type)` (mmd.js:13-17): the first argument of that type, and none
      exactly when no argument has that type. */
  function Argument(args: seq<Value>, ty: JsType): (found: Option<Value>)
    ensures found.None? <==> forall j :: 0 <= j < |args| ==> TypeOf(args[j]) != ty
    ensures found.Some? ==> exists i :: 0 <= i < |args| && args[i] == found.value && TypeOf(args[i]) == ty &&
                              forall j :: 0 <= j < i ==> TypeOf(args[j]) != ty
  {
    var i := FirstOfType(args, ty);
    if i < |args| then Some(args[i]) else None
  }

  /** The first argument of `require`: an array the caller owns, or any other value, which
      is wrapped in a fresh array unless it is an array value without identity. */
  datatype Request = Direct(v: Value) | InPlace(a: array<Value>) {
    /** `directRef`: not an array, so the one resolved value is returned. */
    predicate Single() {
      Direct? && !v.Array?
    }

    function Targets(): set<object> {
      if InPlace? then {a} else {}
    }

    /** The slots `require` resolves. */
    function Slots(): seq<Value>
      reads Targets()
    {
      match this
      case InPlace(a) => a[..]
      case Direct(v) => if v.Array? then v.items else [v]
    }
  }

  /** What `define` leads to: it returns nothing, or throws. */
  datatype Outcome = Pass | Fail(error: Error)

  class Framework {
    /** `modules`: the table of module definitions held in the closure. */
    var modules: Table
    /** Every factory call, by module id, in call order. */
    ghost var built: seq<string>
    /** The arguments of every callback invocation, in order. */
    ghost var injected: seq<seq<Value>>

    /** The closure's initial state (mmd.js:6-9): no modules. */
    constructor ()
      ensures modules == map[] && built == [] && injected == []
    {
      modules := map[];
      built := [];
      injected := [];
    }

    /** `getArgument(type)` (mmd.js:13-17): a scan of the arguments for the first of that
        type. `Argument` is its specification. */
    method GetArgument(args: seq<Value>, ty: JsType) returns (found: Option<Value>)
      ensures found == Argument(args, ty)
    {
      var i := 0;
      while i < |args|
        invariant 0 <= i <= FirstOfType(args, ty)
      {
        if TypeOf(args[i]) == ty {
          return Some(args[i]);
        }
        i := i + 1;
      }
      return None;
    }

    /** `define(...)` (mmd.js:10-30): the first string argument is the id, the first object
        argument the dependency array (any other object counts as none) and the first
        function argument the factory, wherever they stand. Without a non-empty id or a
        function it throws and changes nothing; otherwise the definition replaces whatever
        the id held. A value that is not a function is never wrapped into a factory. */
    method Define(args: seq<Value>) returns (r: Outcome)
      modifies this`modules
      ensures var id := Argument(args, StringType);
              var deps := Argument(args, ObjectType);
              var factory := Argument(args, FunctionType);
              if id.None? || !Truthy(id.value) || factory.None? then
                r == Fail(InvalidDefinition) && modules == old(modules)
              else
                && r == Pass
                && modules == old(modules)[id.value.s := Definition(
                     if deps.Some? && deps.value.Array? then deps.value.items else [],
                     factory.value, Undefined, false)]
    {
      var id := GetArgument(args, StringType);
      var dependencies := GetArgument(args, ObjectType);
      var factory := GetArgument(args, FunctionType);
      if id.None? || !Truthy(id.value) || factory.None? {
        return Fail(InvalidDefinition);
      }
      var d := if dependencies.Some? && dependencies.value.Array? then dependencies.value.items else [];
      modules := modules[id.value.s := Definition(d, factory.value, Undefined, false)];
      return Pass;
    }

    /** `require(dependencies, callback)` (mmd.js:31-87): a caller's array is resolved in
        place and any other value in a fresh array of one slot. It has the effect
        `ResolveSlots` describes on the table and the array; it returns the one value for a
        single id and the array itself otherwise; the callback, if it is a function,
        receives the values, and only when nothing failed. */
    method Require(prog: Program, req: Request, callback: Value) returns (r: Result<Value>)
      modifies this`modules, this`built, this`injected, req.Targets()
      decreases Idle(modules), 2
      ensures var run := ResolveSlots(Scope(prog, Ref(this)), old(modules), old(req.Slots()));
              && modules == run.table
              && built == old(built) + run.built
              && (req.InPlace? ==> req.a[..] == run.slots)
              && match run.error
                 case Some(e) => r == Err(e) && injected == old(injected)
                 case None =>
                   && r == Ok(if req.Single() then run.slots[0] else if req.InPlace? then Ref(req.a) else Array(run.slots))
                   && injected == old(injected) + (if TypeOf(callback) == FunctionType then [run.slots] else [])
    {
      var list: array<Value>;
      match req {
        case InPlace(a) =>
          list := a;
        case Direct(v) =>
          if v.Array? {
            list := new Value[|v.items|](i requires 0 <= i < |v.items| => v.items[i]);
            assert list[..] == v.items;
          } else {
            list := new Value[1](_ => v);
            assert list[..] == [v];
          }
      }
      assert list[..] == old(req.Slots());
      var error := ResolveInPlace(prog, list);
      if error.Some? {
        return Err(error.value);
      }
      if TypeOf(callback) == FunctionType {
        injected := injected + [list[..]];
      }
      if req.Single() {
        return Ok(list[0]);
      } else if req.InPlace? {
        return Ok(Ref(list));
      } else {
        return Ok(Array(list[..]));
      }
    }

    /** The loop of `require` (mmd.js:40-78): each slot of `list` in turn is overwritten
        with its resolved value, stopping at the first error. */
    method ResolveInPlace(prog: Program, list: array<Value>) returns (error: Option<Error>)
      modifies this`modules, this`built, this`injected, list
      decreases Idle(modules), 1
      ensures var run := ResolveSlots(Scope(prog, Ref(this)), old(modules), old(list[..]));
              && modules == run.table
              && built == old(built) + run.built
              && injected == old(injected)
              && list[..] == run.slots
              && error == run.error
    {
      ghost var sc := Scope(prog, Ref(this));
      ghost var xs := list[..];
      ghost var done: seq<Value> := [];
      ghost var calls: seq<string> := [];
      var i := 0;
      ThenNothing(ResolveSlots(sc, modules, xs));
      while i < list.Length
        invariant 0 <= i <= list.Length == |xs| && |done| == i
        invariant list[..] == done + xs[i..]
        invariant built == old(built) + calls && injected == old(injected)
        invariant Idle(modules) == Idle(old(modules))
        invariant ResolveSlots(sc, old(modules), xs) == Then(done, calls, ResolveSlots(sc, modules, xs[i..]))
      {
        assert list[i] == xs[i];
        ghost var step := ResolveSlot(sc, modules, xs[i]);
        ghost var m0 := modules;
        var v := RequireSlot(prog, list[i]);
        Concat3(old(built), calls, step.built);
        if v.Err? {
          StepErr(sc, m0, xs, done, calls);
          return Some(v.error);
        }
        StepOk(sc, m0, xs, done, calls);
        Overwrite(done, xs, v.value);
        ghost var before := list[..];
        list[i] := v.value;
        assert list[..] == before[i := v.value];
        done := done + [v.value];
        calls := calls + step.built;
        i := i + 1;
      }
      assert done + [] == done && calls + [] == calls;
      return None;
    }

    /** The body of `require`'s loop for one slot (mmd.js:41-77), with the effect
        `ResolveSlot` describes. A module being built has its flag set across the nested
        `require`, which resolves its dependency array in place and stores it back. */
    method RequireSlot(prog: Program, x: Value) returns (r: Result<Value>)
      modifies this`modules, this`built, this`injected
      decreases Idle(modules), 0
      ensures var st := ResolveSlot(Scope(prog, Ref(this)), old(modules), x);
              && modules == st.table
              && built == old(built) + st.built
              && injected == old(injected)
              && r == st.result
    {
      if x == Str("mmd") {
        return Ok(Ref(this));
      } else if x.Str? && x.s in modules {
        var id := x.s;
        var mod := modules[id];
        if !Truthy(mod.exports) {
          if mod.active {
            return Err(CircularReference(id));
          }
          ghost var t := modules;
          mod := mod.(active := true);
          modules := modules[id := mod];
          IdleAfter(t, id, mod);
          var list := new Value[|mod.deps|](i requires 0 <= i < |mod.deps| => mod.deps[i]);
          assert list[..] == mod.deps;
          ghost var sub := ResolveSlots(Scope(prog, Ref(this)), modules, mod.deps);
          var deps := Require(prog, InPlace(list), Undefined);
          assert modules == sub.table && list[..] == sub.slots && deps.Err? == sub.error.Some?;
          mod := mod.(deps := list[..]);
          if deps.Err? {
            modules := modules[id := mod];
            return Err(deps.error);
          }
          mod := mod.(exports := Apply(prog, mod.factory, list[..]), active := false);
          modules := modules[id := mod];
          built := built + [id];
        }
        return Ok(mod.exports);
      } else {
        return Err(UndefinedModule(x));
      }
    }
  }
}
