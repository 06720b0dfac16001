/** pods.js: tiny registries for module definition and dependency resolution.

    Every `Pod` owns a table `_m` from module ids to definitions; the static `Pod` is one
    more such registry. `require` resolves ids depth first, builds each module lazily with
    its factory, memoises the export and detects circular references with an active flag.

    `Resolve` is the meaning of `require` as a function of the table; `Pod.Require` is the
    loop of the source, proved to compute it; the lemmas state what `require` promises. */
module Pods {
  import opened Js

  /** A module definition `{d: deps, f: factory}` with the two fields `require` adds to it:
      the memoised export `e` and the active flag `_`. */
  datatype Definition = Definition(deps: seq<string>, factory: Function, exports: Value, active: bool)

  type Table = map<string, Definition>

  /** A definition as `define` stores it: no export yet and not active. */
  function Fresh(deps: seq<string>, factory: Function): Definition {
    Definition(deps, factory, Undefined, false)
  }

  /** `mod.e` is truthy, so `require` hands it out instead of calling the factory. */
  predicate Built(d: Definition) {
    Truthy(d.exports)
  }

  /** The defined ids whose active flag is clear. Every descent of `require` flags one of
      them, so this set shrinks along every chain of nested builds. */
  ghost function Idle(t: Table): set<string> {
    set id | id in t && !t[id].active
  }

  lemma IdleAfter(t: Table, id: string, d: Definition)
    ensures Idle(t[id := d]) == if d.active then Idle(t) - {id} else Idle(t) + {id}
  {
  }

  /** What `require` resolves against besides the table: the behaviour of user functions,
      the registry's `name` and the registry object itself. */
  datatype Scope = Scope(prog: Program, name: Option<string>, me: Value)

  /** An id that denotes the registry itself when no module of that id is defined. */
  predicate IsSelf(sc: Scope, id: string) {
    sc.name == Some(id) || id == "pod"
  }

  /** The effect of resolving a list of ids: the resolved values or the error thrown, the
      table afterwards, and the ids whose factories were called, in the order of the calls. */
  datatype Run = Run(result: Result<seq<Value>>, table: Table, built: seq<string>)

  /** `run` preceded by values `vs` and factory calls `calls`. */
  function Then(vs: seq<Value>, calls: seq<string>, run: Run): Run {
    Run(if run.result.Ok? then Ok(vs + run.result.value) else run.result, run.table, calls + run.built)
  }

  lemma ThenNothing(run: Run)
    ensures Then([], [], run) == run
  {
    if run.result.Ok? {
      assert [] + run.result.value == run.result.value;
    }
    assert [] + run.built == run.built;
  }

  lemma ThenThen(vs: seq<Value>, calls: seq<string>, ws: seq<Value>, calls': seq<string>, run: Run)
    ensures Then(vs, calls, Then(ws, calls', run)) == Then(vs + ws, calls + calls', run)
  {
    assert calls + (calls' + run.built) == (calls + calls') + run.built;
    if run.result.Ok? {
      assert vs + (ws + run.result.value) == (vs + ws) + run.result.value;
    }
  }

  /** What an id stands for once resolved: the export stored under it, or the registry. */
  function Lookup(sc: Scope, t: Table, id: string): Value {
    if id in t then t[id].exports else sc.me
  }

  /** Resolving one id on table `t` (the body of the loop at pods.js:83-119): a defined
      module gives its export if that is truthy, throws if its flag is set, and otherwise is
      flagged, has its dependencies resolved and its factory applied to them, and stores the
      export with the flag cleared; an undefined id gives the registry itself or throws.
      A success leaves as many flags set as before, which is what makes the nested
      resolution terminate. */
  ghost function ResolveOne(sc: Scope, t: Table, id: string): (run: Run)
    ensures run.result.Ok? ==> |run.result.value| == 1 && Idle(run.table) == Idle(t)
    decreases Idle(t), 0
  {
    if id in t then
      var def := t[id];
      if Built(def) then
        Run(Ok([def.exports]), t, [])
      else if def.active then
        Run(Err(CircularReference(id)), t, [])
      else
        var t1 := t[id := def.(active := true)];
        IdleAfter(t, id, def.(active := true));
        var sub := Resolve(sc, t1, def.deps);
        if sub.result.Err? then sub
        else
          var e := Apply(sc.prog, def.factory, sub.result.value);
          IdleAfter(sub.table, id, def.(exports := e));
          Run(Ok([e]), sub.table[id := def.(exports := e)], sub.built + [id])
    else if IsSelf(sc, id) then
      Run(Ok([sc.me]), t, [])
    else
      Run(Err(UndefinedModule(Str(id))), t, [])
  }

  /** `require(ids)` on table `t` (pods.js:77-130): the ids resolved one after the other,
      stopping at the first error. */
  ghost function Resolve(sc: Scope, t: Table, ids: seq<string>): (run: Run)
    ensures run.result.Ok? ==> |run.result.value| == |ids| && Idle(run.table) == Idle(t)
    decreases Idle(t), |ids|
  {
    if ids == [] then Run(Ok([]), t, [])
    else
      var head := ResolveOne(sc, t, ids[0]);
      if head.result.Err? then head
      else Then(head.result.value, head.built, Resolve(sc, head.table, ids[1..]))
  }

  /** The first argument of `require`: one id, or an array of ids. */
  datatype Request = One(id: string) | Many(ids: seq<string>) {
    function Ids(): seq<string> {
      if One? then [id] else ids
    }
  }

  /** Every element of a dependency array is an id. */
  predicate AllIds(items: seq<Value>) {
    forall i :: 0 <= i < |items| ==> items[i].Str?
  }

  /** The ids of a dependency array. */
  function IdsOf(items: seq<Value>): (ids: seq<string>)
    requires AllIds(items)
    ensures |ids| == |items| && forall i :: 0 <= i < |items| ==> items[i] == Str(ids[i])
  {
    seq(|items|, i requires 0 <= i < |items| => items[i].s)
  }

  /** The factory `define` stores for a truthy value in the factory position: a function
      as it is, anything else wrapped in a function that returns it (pods.js:32-37). */
  function FactoryFor(v: Value): Function {
    if TypeOf(v) == FunctionType then v else Constant(v)
  }

  /** `define` keeps a function as the factory and makes any other value a constant export. */
  lemma FactoryForIsWrapper(prog: Program, v: Value, args: seq<Value>)
    ensures TypeOf(v) == FunctionType ==> FactoryFor(v) == v
    ensures TypeOf(v) != FunctionType ==> FactoryFor(v) == Constant(v) && Apply(prog, FactoryFor(v), args) == v
  {
  }

  /** The two signatures of `declare`: one id with its exports, or an object whose own
      key/value pairs, in enumeration order, are each declared. */
  datatype Declaration = Named(id: string, exports: Value) | Mapping(pairs: seq<(string, Value)>) {
    function Pairs(): seq<(string, Value)> {
      if Named? then [(id, exports)] else pairs
    }
  }

  /** The table after declaring `pairs` one after the other. */
  function Declared(t: Table, pairs: seq<(string, Value)>): Table
    decreases |pairs|
  {
    if pairs == [] then t
    else Declared(t[pairs[0].0 := Fresh([], Constant(pairs[0].1))], pairs[1..])
  }

  /** The index of the first pair whose key is empty, or the number of pairs. */
  function FirstEmptyKey(pairs: seq<(string, Value)>): (k: nat)
    ensures k <= |pairs|
    ensures forall j :: 0 <= j < k ==> pairs[j].0 != ""
    ensures k < |pairs| ==> pairs[k].0 == ""
  {
    if pairs == [] then 0
    else if pairs[0].0 == "" then 0
    else 1 + FirstEmptyKey(pairs[1..])
  }

  class Pod {
    /** `this.name`: the id under which the registry can require itself. */
    const name: Option<string>
    /** `_m`: the table of module definitions. */
    var m: Table
    /** Every factory call, by module id, in call order. */
    ghost var built: seq<string>
    /** The arguments of every callback invocation, in order. */
    ghost var injected: seq<seq<Value>>

    /** `new Pod(name)` (pods.js:7-10): an empty registry of its own. */
    constructor (name: Option<string>)
      ensures this.name == name && m == map[] && built == [] && injected == []
    {
      this.name := name;
      m := map[];
      built := [];
      injected := [];
    }

    /** `define(id, deps, factory)` (pods.js:19-46). When `deps` is not an array it is the
        factory and there are no dependencies; a missing id or a falsy factory throws and
        changes nothing; otherwise `{d, f}` replaces whatever `id` held. A dependency array
        holds ids. */
    method Define(id: string, deps: Value, factory: Value) returns (r: Result<Pod>)
      requires deps.Array? ==> AllIds(deps.items)
      modifies this`m
      ensures var ds := if deps.Array? then IdsOf(deps.items) else [];
              var exports := if deps.Array? then factory else deps;
              if id == "" || !Truthy(exports) then r == Err(InvalidDefinition) && m == old(m)
              else r == Ok(this) && m == old(m)[id := Fresh(ds, FactoryFor(exports))]
    {
      var d, f := deps, factory;
      if !d.Array? {
        f := d;
        d := Array([]);
      }
      if id == "" || !Truthy(f) {
        return Err(InvalidDefinition);
      }
      m := m[id := Fresh(IdsOf(d.items), FactoryFor(f))];
      return Ok(this);
    }

    /** `declare(id, exports)` or `declare(definitions)` (pods.js:54-72): each pair in turn
        is defined with a factory returning its value, so a function value is an export and
        never a factory. An empty key makes `define` throw, after the pairs before it. */
    method Declare(decl: Declaration) returns (r: Result<Pod>)
      modifies this`m
      ensures var pairs := decl.Pairs();
              var k := FirstEmptyKey(pairs);
              m == Declared(old(m), pairs[..k]) && r == (if k == |pairs| then Ok(this) else Err(InvalidDefinition))
    {
      var defs := decl.Pairs();
      ghost var k := FirstEmptyKey(defs);
      assert defs[..k] == defs[0..k];
      var i := 0;
      while i < |defs|
        invariant 0 <= i <= k
        invariant Declared(old(m), defs[..k]) == Declared(m, defs[i..k])
      {
        var (id, exports) := defs[i];
        var res := Define(id, Constant(exports), Undefined);
        if res.Err? {
          return Err(res.error);
        }
        assert defs[i..k] == [defs[i]] + defs[i + 1..k];
        i := i + 1;
      }
      return Ok(this);
    }

    /** `require(req, callback)` (pods.js:77-130), one loop over a copy of the requested ids.
        It has the effect `Resolve` describes on the table; a single id yields its value and
        an array a fresh array of the values; the callback, if it is a function, receives the
        values, and only when nothing failed. */
    method Require(prog: Program, req: Request, callback: Value) returns (r: Result<Value>)
      modifies this`m, this`built, this`injected
      decreases Idle(m), 1
      ensures var run := Resolve(Scope(prog, name, Ref(this)), old(m), req.Ids());
              && m == run.table
              && built == old(built) + run.built
              && match run.result
                 case Err(e) => r == Err(e) && injected == old(injected)
                 case Ok(vs) =>
                   && r == Ok(if req.One? then vs[0] else Array(vs))
                   && injected == old(injected) + (if TypeOf(callback) == FunctionType then [vs] else [])
    {
      ghost var sc := Scope(prog, name, Ref(this));
      var single := req.One?;
      var ids := if single then [req.id] else req.ids;
      var vals: seq<Value> := [];
      ghost var calls: seq<string> := [];
      var i := 0;
      ThenNothing(Resolve(sc, m, ids));
      while i < |ids|
        invariant 0 <= i <= |ids| && |vals| == i
        invariant built == old(built) + calls && injected == old(injected)
        invariant Idle(m) == Idle(old(m))
        invariant Resolve(sc, old(m), ids) == Then(vals, calls, Resolve(sc, m, ids[i..]))
      {
        assert ids[i..][0] == ids[i] && ids[i..][1..] == ids[i + 1..];
        ghost var step := ResolveOne(sc, m, ids[i]);
        ghost var rest := Resolve(sc, m, ids[i..]);
        assert rest == if step.result.Err? then step else Then(step.result.value, step.built, Resolve(sc, step.table, ids[i + 1..]));
        var v := RequireOne(prog, ids[i]);
        Concat3(old(built), calls, step.built);
        if v.Err? {
          assert rest == step;
          return Err(v.error);
        }
        assert step.result.value == [v.value] && step.table == m;
        ThenThen(vals, calls, [v.value], step.built, Resolve(sc, m, ids[i + 1..]));
        vals := vals + [v.value];
        calls := calls + step.built;
        i := i + 1;
      }
      assert vals + [] == vals && calls + [] == calls;
      if TypeOf(callback) == FunctionType {
        injected := injected + [vals];
      }
      return Ok(if single then vals[0] else Array(vals));
    }

    /** The body of `require`'s loop for one id (pods.js:83-119), with the effect
        `ResolveOne` describes. A module being built has its flag set across the nested
        `require` of its dependencies, which is what detects a cycle. */
    method RequireOne(prog: Program, id: string) returns (r: Result<Value>)
      modifies this`m, this`built, this`injected
      decreases Idle(m), 0
      ensures var run := ResolveOne(Scope(prog, name, Ref(this)), old(m), id);
              && m == run.table
              && built == old(built) + run.built
              && injected == old(injected)
              && r == match run.result case Ok(vs) => Ok(vs[0]) case Err(e) => Err(e)
    {
      ghost var sc := Scope(prog, name, Ref(this));
      if id in m {
        var mod := m[id];
        if !Truthy(mod.exports) {
          if mod.active {
            return Err(CircularReference(id));
          }
          ghost var t := m;
          mod := mod.(active := true);
          m := m[id := mod];
          IdleAfter(t, id, mod);
          ghost var sub := Resolve(sc, m, mod.deps);
          var deps := Require(prog, Many(mod.deps), Undefined);
          if deps.Err? {
            return Err(deps.error);
          }
          mod := mod.(exports := Apply(prog, mod.factory, deps.value.items), active := false);
          m := m[id := mod];
          built := built + [id];
        }
        return Ok(mod.exports);
      } else if name == Some(id) || id == "pod" {
        return Ok(Ref(this));
      } else {
        return Err(UndefinedModule(Str(id)));
      }
    }
  }
}
