# pods.js and mmd.js: lazy, memoising module registries

Two tiny module registries. Each keeps a table of module definitions (a list of
dependency ids and a factory). `require` builds a module only when it is first asked for:
it resolves the module's dependencies recursively, applies the factory to the resolved
values and memoises the result as the module's export. A flag set on a module while its
dependencies are resolved detects circular references.

- `pods.js` is the `Pod` registry. There is a static instance and `new Pod(name)`
  instances. A registry answers to its own name and to `'pod'` when no module of that id
  is defined. `declare` registers plain values as exports.
- `mmd.js` is one framework held in a closure. `define` finds its id, dependency array
  and factory among its arguments by `typeof`. `require` overwrites the slots of the array
  it is given with the resolved values, and this includes a module's own stored
  dependency array. The framework answers to `'mmd'` before any module of that name.

## How the model is built

- `js.dfy` (module `Js`): the JavaScript values involved, `typeof`, truthiness, and the
  three thrown errors.
  - A user function (factory or callback) is a handle `Func(fn)`.
  - What user functions return is a parameter `prog: Program` of `require`.
  - The registries' own wrapper `function() { return v; }` is `Constant(v)`.
- `pods.dfy` (module `Pods`) and `mmd.dfy` (module `Mmd`): one file per registry.
  - The registry itself is a class (`Pod`, `Framework`) whose table field its methods
    update.
  - `require` is a loop, calling itself recursively for dependencies, as in the source.
  - Each method is proved to compute a ghost function of the old table: `Pods.Resolve`,
    or `Mmd.ResolveSlots` for the array the call overwrites.
  - Ghost fields record every factory call (`built`) and every callback's arguments
    (`injected`).
- `pods_props.dfy` and `mmd_props.dfy`: what `require` promises, proved about those
  functions for all tables. This covers:
  - positional results;
  - an undefined id aborting the whole call;
  - memoisation;
  - each factory called at most once, and exactly once for the requested modules and
    every dependency a build needs;
  - laziness: a call builds modules in post-order, so every module it builds is requested
    or is linked by a chain of dependencies to a requested module;
  - a second `require` changing nothing;
  - circular dependencies always throwing, and a closed cycle throwing `circular reference`;
  - the stale flag that a failed build leaves behind.

The memo guard is the source's `!mod.e`. A module whose factory returned a falsy value
is therefore built again on every `require`. For that reason the at-most-once lemmas
assume that the factories the call runs return truthy values. Other modules in the
table, which the call does not build, may have any factory.

A failed build leaves its module's flag set (`pods.js:104-105`, `mmd.js:66-67`: nothing
clears it when the nested `require` throws). A later `require` of that module throws
`circular reference` even though there is no cycle. The comment "Release module from the
active path" suggests the flag is released after every build. The model follows the code,
and `StaleFlag` states the consequence. `mmd.js` also checks `'mmd'` before the module table, where `pods.js` checks
the table before its own names. The model keeps both orders.

## Model

| member | source | states |
|---|---|---|
| `Pods.Pod.constructor` | pods.js:7-10 | a new registry has the given name, an empty table of its own, and no factory or callback calls yet |
| `Pods.ResolveOne` | pods.js:83-119 | what resolving one id computes on a table: a truthy export as it is; `circular reference to <id>` for a flagged module; otherwise, with the module flagged, its dependencies resolved and its factory applied to them, the export stored with the flag cleared and its id logged; the registry for its own undefined names; `<id> is undefined` for anything else. A success yields one value and leaves as many flags set as before |
| `Pods.Resolve` | pods.js:77-130 | what `require` computes on a list of ids: the ids resolved one after the other, each on the table the ones before it leave, stopping at the first throw. A success yields one value per id and leaves as many flags set as before |
| `Pods.Pod.Define` | pods.js:19-46 | a second argument that is not an array value is the factory and there are no dependencies; an array gives the dependency ids; an empty id or a falsy factory throws `invalid definition` and leaves the table unchanged; otherwise the id maps to a fresh, unbuilt definition (replacing any earlier one) and `this` is returned |
| `Pods.FactoryFor` | pods.js:32-37 | the factory `define` stores for a truthy value: a function value itself, and for any other value the wrapper `Constant(v)` |
| `Pods.FactoryForIsWrapper` | pods.js:32-37 | a function value is kept as the factory; any other value becomes a factory that returns exactly that value for every argument list |
| `Pods.FirstEmptyKey` | pods.js:66-70 | the first pair whose key is empty, which is where `declare`'s loop stops; every key before it is non-empty |
| `Pods.Declared` | pods.js:66-70 | the table after declaring the pairs one after the other: each key in turn is mapped to an unbuilt module without dependencies whose factory returns its value, a later pair replacing an earlier one with the same key |
| `Pods.Pod.Declare` | pods.js:54-72 | both signatures define the pairs in order with constant factories; the table becomes the pairs up to the first empty key declared one after another; the call throws `invalid definition` exactly when such a key exists |
| `PodsProperties.DeclaredEntries` | pods.js:66-70 | with distinct keys, declaring maps every key to an unbuilt module without dependencies whose factory returns its value, and leaves every other id's entry unchanged |
| `PodsProperties.DeclaredResolves` | pods.js:62-64 | a declared value, even a function, is what `require` yields for its key; it is never called as a factory |
| `Pods.Pod.Require` | pods.js:77-130 | the new table and factory-call log are those of `Resolve` on the ids (one id wrapped in a list); on success a single id returns its value and a list returns an array of the values, and a function callback receives those values; a throw returns the error and calls no callback |
| `Pods.Pod.RequireOne` | pods.js:83-119 | one loop iteration has exactly the effect of `ResolveOne`: the new table, the factory calls appended, no callback, and the value or the error it throws |
| `PodsProperties.ResolveConcat` | pods.js:83-119 | resolving `a + b` is resolving `a`, then `b` on the table `a` leaves, and it stops at the first throw |
| `PodsProperties.FrameOne` | pods.js:86-114 | one id never changes the set of defined ids or any definition's dependencies and factory, and never touches a built or active entry; a success means the id was defined or names the registry, and its value is what the resulting table holds for it |
| `PodsProperties.Frame` | pods.js:83-119 | a whole `require`, successful or not, leaves a table related to the old one by that frame |
| `PodsProperties.PositionalStep` | pods.js:83-119 | element `k` of a successful result is what resolving `ids[k]` yields on the table that the ids before it leave |
| `PodsProperties.Position` | pods.js:86-114 | element `k` is the export of a defined `ids[k]` just after it was resolved, or the registry itself when `ids[k]` is its name or `'pod'` and undefined; a truthy export it yields is kept in the final table |
| `PodsProperties.Positional` | pods.js:109-113 | a successful `require` yields one value per id, each defined or naming the registry, with the registry itself for its own undefined names and each truthy export memoised in the final table |
| `PodsProperties.UndefinedAborts` | pods.js:115-118 | an id that is neither defined nor one of the registry's names makes the whole call throw, whatever the other ids are |
| `PodsProperties.UndefinedError` | pods.js:115-118 | when that id is the first failure, the error is `<id> is undefined` with that id |
| `PodsProperties.Lookups` | pods.js:93-109 | one value per id, the stored export or the registry itself |
| `PodsProperties.Memoised` | pods.js:93-109 | when every requested module has a truthy export, `require` yields those exports, builds nothing and leaves the table unchanged |
| `PodsProperties.BuildLogOne` | pods.js:93-106 | one id calls a factory only for ids that were defined, unbuilt and not active; every entry whose factory is not called keeps its export |
| `PodsProperties.BuildLog` | pods.js:83-119 | the same for a whole call: every factory call was for a module defined, unbuilt and inactive at the start, and every entry whose factory is not called keeps its export |
| `PodsProperties.OnceOne` | pods.js:93-106 | when the factories the call runs return truthy values, one id calls no factory twice, every module whose factory it called is built afterwards, and on success a defined id is built |
| `PodsProperties.Once` | pods.js:83-119 | when the factories the call runs return truthy values, a whole call calls no factory twice and every module whose factory it called is built afterwards |
| `PodsProperties.RequestedBuilt` | pods.js:93-109 | when the factories the call runs return truthy values, after a successful call every requested defined module is built |
| `PodsProperties.DepsBuiltOne` | pods.js:93-106 | when the factories the call runs return truthy values, after a successful resolution every defined dependency of each module whose factory was called holds a truthy export |
| `PodsProperties.DepsBuilt` | pods.js:83-119 | the same for a whole successful call |
| `PodsProperties.ExactlyOnce` | pods.js:93-106 | when the factories the call runs return truthy values, a successful call calls the factory of every requested module that was unbuilt and of every unbuilt defined dependency of a module it builds, calls no factory twice, and only for modules unbuilt at the start, so a shared or repeated dependency is built exactly once |
| `PodsProperties.LazyOne` | pods.js:93-106 | a successful resolution of one id logs its factory calls in post-order: each is for that id or for a listed dependency of a module whose factory is called later |
| `PodsProperties.Lazy` | pods.js:83-119 | a successful `require` logs its factory calls in post-order: each is for a requested id or for a listed dependency of a module whose factory is called later |
| `PodsProperties.PostOrderWanted` | pods.js:83-119 | in a post-order log, every module built is requested or is a dependency of a later-built module that is itself wanted, so a chain of dependencies leads from it to a requested id and modules that only depend on each other are never built |
| `PodsProperties.SecondRequire` | pods.js:93-109 | when the factories the call runs return truthy values, requiring the same ids again yields the same values, calls no factory and leaves the table unchanged |
| `PodsProperties.FactoryArguments` | pods.js:99-105 | a successful build resolves the dependencies with the module flagged and stores, flag cleared, the factory applied to the resolved values; no module is its own dependency; each argument is the registry for the registry's own undefined names and otherwise the export the dependency holds once resolved, which stays in the table for every later requester when truthy |
| `PodsProperties.TrapOne` | pods.js:93-106 | resolving a module of a circular dependency (unbuilt modules each depending on one of them) throws; resolving anything else either throws or leaves those entries untouched |
| `PodsProperties.TrapMany` | pods.js:83-119 | a list of ids either throws or leaves the circular set untouched, and then contains none of its members |
| `PodsProperties.CycleFails` | pods.js:96 | requiring any module caught in a circular dependency (unbuilt modules each with some dependency in the set) throws, whatever else is in the list; `CycleError` names the error |
| `PodsProperties.CycleErrorOne` | pods.js:93-102 | requiring a module of a cycle, a set of unbuilt modules each with its first dependency in the set (`a -> b -> c -> a` is one), throws `circular reference to <y>` for a module `y` of the cycle |
| `PodsProperties.CycleError` | pods.js:83-119 | a list whose ids before `ids[k]` resolve and whose `ids[k]` is in such a cycle throws `circular reference to <y>` for a module `y` of the cycle |
| `PodsProperties.SelfDependency` | pods.js:96-102 | a module listed among its own dependencies throws `circular reference to <id>` when the dependencies listed before it resolve |
| `PodsProperties.StaleFlag` | pods.js:99-105 | when a build's dependencies throw, the module is left active, so requiring it again throws `circular reference to <id>` |
| `Mmd.Framework.constructor` | mmd.js:6-9 | the closure starts with an empty table and no factory or callback calls |
| `Mmd.ResolveSlot` | mmd.js:41-77 | what resolving one slot computes on a table: the framework for `'mmd'`; a truthy export as it is; `circular reference to <id>` for a flagged module; otherwise, with the module flagged, its dependency array resolved in place and stored back, and on success its factory applied to it and the export stored with the flag cleared and its id logged, while a failure keeps the flag set; `<x> is undefined` for anything else |
| `Mmd.ResolveSlots` | mmd.js:31-87 | what `require` computes on an array: the slots resolved one after the other, each on the table the ones before it leave; at the first throw the slots before it hold their values and the rest keep their ids. The array keeps its length, and a success leaves as many flags set as before |
| `Mmd.FirstOfType` | mmd.js:13-17 | the index of the first argument of the given `typeof`: nothing before it has that type, it has it, or there is none |
| `Mmd.Argument` | mmd.js:13-17 | `getArgument`'s answer: the first argument of the given `typeof`, and nothing exactly when no argument has that type |
| `Mmd.Framework.GetArgument` | mmd.js:13-17 | the loop returns exactly `Argument`'s answer |
| `Mmd.Framework.Define` | mmd.js:10-30 | the first string, object and function argument, in any position, are the id, the dependencies and the factory; no non-empty id or no function throws `invalid definition` and leaves the table unchanged; an object that is not an array means no dependencies; otherwise the id maps to a fresh, unbuilt definition |
| `Mmd.Framework.Require` | mmd.js:31-87 | the table, the factory-call log and (for the caller's array) the array's new contents are those of `ResolveSlots` on the array, or on one slot for a non-array; on success it returns the one value, the array itself or a new array value, and a function callback receives the values; a throw returns the error with no callback |
| `Mmd.Framework.ResolveInPlace` | mmd.js:40-78 | the loop overwrites the array with exactly the slots `ResolveSlots` computes, leaves the same table and factory log, and returns its error |
| `Mmd.Framework.RequireSlot` | mmd.js:41-77 | one slot has exactly the effect of `ResolveSlot`, including the module's dependency array overwritten in place by the nested `require` |
| `MmdProperties.ResolveConcat` | mmd.js:40-78 | resolving `a + b` is resolving `a`, then `b` on the table `a` leaves; after a throw the rest of the array keeps its ids |
| `MmdProperties.FrameOne` | mmd.js:43-77 | one slot never changes the defined ids or a factory, and never touches a built or active entry; a success means the slot held `'mmd'` or a defined id, and its value is what the table then holds for it |
| `MmdProperties.Frame` | mmd.js:40-78 | a whole `require` leaves a table related to the old one by that frame |
| `MmdProperties.PositionalStep` | mmd.js:40-78 | slot `k` of a successful run holds what resolving `xs[k]` yields on the table that the slots before it leave |
| `MmdProperties.Position` | mmd.js:43-71 | slot `k` holds the framework if it held `'mmd'`, even when a module `'mmd'` is defined; otherwise it held a defined id and now holds that module's export; a truthy export stays in the table |
| `MmdProperties.Positional` | mmd.js:43-71 | a successful `require` overwrites every slot: `'mmd'` with the framework, a defined id with its export, truthy exports memoised |
| `MmdProperties.PartialOverwrite` | mmd.js:40-78 | a failed `require` stopped at some slot `k`: the slots before `k` hold the values they resolved to, the slots from `k` on keep their ids, and the error is the one slot `k` threw |
| `MmdProperties.UndefinedAborts` | mmd.js:73-77 | a slot holding neither `'mmd'` nor a defined id makes the whole call throw |
| `MmdProperties.UndefinedError` | mmd.js:73-77 | at the first such failure, the error names that slot's value, and the array is the resolved prefix followed by the unresolved rest |
| `MmdProperties.Lookups` | mmd.js:55-71 | one value per slot, the framework or the stored export |
| `MmdProperties.Memoised` | mmd.js:55-71 | when every requested module has a truthy export, `require` fills in those exports, builds nothing and leaves the table unchanged |
| `MmdProperties.BuildLogOne` | mmd.js:55-68 | one slot calls a factory only for modules that were defined, unbuilt and not active; every entry whose factory is not called keeps its export |
| `MmdProperties.BuildLog` | mmd.js:40-78 | the same for a whole call |
| `MmdProperties.UntouchedOne` | mmd.js:55-68 | a successful slot leaves every entry whose factory it did not call exactly as it was, dependency array and flag included |
| `MmdProperties.Untouched` | mmd.js:40-78 | the same for a whole successful call |
| `MmdProperties.OnceOne` | mmd.js:55-68 | when the factories the call runs return truthy values, one slot calls no factory twice, every module whose factory it called is built afterwards, and on success a defined id is built |
| `MmdProperties.Once` | mmd.js:40-78 | when the factories the call runs return truthy values, a whole call calls no factory twice and every module whose factory it called is built afterwards |
| `MmdProperties.RequestedBuilt` | mmd.js:55-71 | when the factories the call runs return truthy values, after a successful call every slot other than `'mmd'` named a defined module, which is now built |
| `MmdProperties.DepsBuiltOne` | mmd.js:55-68 | when the factories the call runs return truthy values, after a successful resolution every dependency slot naming a defined module (other than `'mmd'`) of each module whose factory was called names a module with a truthy export |
| `MmdProperties.DepsBuilt` | mmd.js:40-78 | the same for a whole successful call |
| `MmdProperties.ExactlyOnce` | mmd.js:55-68 | when the factories the call runs return truthy values, a successful call calls the factory of every requested module that was unbuilt and of every unbuilt dependency naming a defined module (other than `'mmd'`) of a module it builds, calls no factory twice, and only for modules unbuilt at the start |
| `MmdProperties.LazyOne` | mmd.js:55-68 | when the factories the call runs return truthy values, a successful resolution of one slot logs its factory calls in post-order: each is for the module the slot names or for a module named in the dependency array (as it stood before the call) of a module whose factory is called later |
| `MmdProperties.Lazy` | mmd.js:40-78 | when the factories the call runs return truthy values, a successful `require` logs its factory calls in post-order: each is for a module named in the array or named in the dependency array of a module whose factory is called later |
| `MmdProperties.PostOrderWanted` | mmd.js:40-78 | in a post-order log, every module built is named in the array or in the dependency array of a later-built module that is itself wanted, so modules that only name each other are never built |
| `MmdProperties.SecondRequire` | mmd.js:55-71 | when the factories the call runs return truthy values, requiring the same ids again yields the same values, calls no factory and leaves the table unchanged |
| `MmdProperties.DepsOverwritten` | mmd.js:61-67 | building a module stores, as its dependency array, the slots its nested `require` overwrote; on success the export is the factory applied to them, the flag is cleared and every dependency was `'mmd'` or a defined id other than the module; on failure the flag stays set |
| `MmdProperties.TrapOne` | mmd.js:55-67 | resolving a module of a circular dependency throws; any other slot either throws or leaves those entries untouched |
| `MmdProperties.TrapMany` | mmd.js:40-78 | an array either throws or leaves the circular set untouched, and then names none of its members |
| `MmdProperties.CycleFails` | mmd.js:58 | requiring any module caught in a circular dependency (unbuilt modules each with some dependency slot in the set) throws, whatever else is in the array; `CycleError` names the error |
| `MmdProperties.CycleErrorOne` | mmd.js:55-64 | requiring a module of a cycle, a set of unbuilt modules other than `'mmd'` each with its first dependency slot naming a module of the set (`a -> b -> c -> a` is one), throws `circular reference to <y>` for a module `y` of the cycle |
| `MmdProperties.CycleError` | mmd.js:40-78 | an array whose slots before `xs[k]` resolve and whose `xs[k]` names a module of such a cycle throws `circular reference to <y>` for a module `y` of the cycle |
| `MmdProperties.SelfDependency` | mmd.js:58-64 | a module whose dependency array names it throws `circular reference to <id>` when the slots before that entry resolve |
| `MmdProperties.StaleFlag` | mmd.js:61-67 | when a build's dependencies throw, the module is left active, so requiring it again throws `circular reference to <id>` |

## Left out

- A factory that throws is not modelled. User functions are total and pure (`Program`), so
  they cannot throw and cannot call back into a registry.
- Callbacks are not modelled beyond their arguments. A function callback is recorded in
  `injected` with the values it receives; what it returns and any effect it has are
  ignored, as the source ignores them.
- The build script and the test files around the two registries are not part of this
  model.
- The static `Pod` registry (`pods.js:13`, `pods.js:133-137`) has the same methods as each
  `new Pod(name)` instance. It is modelled as one more instance whose optional `name`
  stands for the name JavaScript gives the function (`'Pod'`). The prototype sharing is
  omitted.
- Non-string ids are not modelled.
  - In `pods.js`, ids are strings, with `""` standing for a missing or falsy id.
  - In `mmd.js`, a slot that is not a string never names a module and throws
    `is undefined`. JavaScript would convert it to a property key.
  - `hasOwnProperty` on inherited names such as `'constructor'` behaves like an ordinary
    lookup.
- Array identity is modelled only for an array `mmd.js`'s `require` is given to resolve in
  place (`Mmd.Request.InPlace`).
  - An array passed as a value is copied.
  - The dependency array `define` stores is its own value, not shared with the caller's
    array. Writing through an alias of it is not modelled.
  - A module's own dependency array is resolved in a copy that is written back, also on
    failure, which gives the same contents.
- `pods.js` copies a requested array (`req.slice()`) and returns the copy. The model
  returns a new array value with the resolved elements.
- `Mmd.Framework.Require` returns a caller's array as `Ref(a)`. Passed back to `require` or
  `define` as a plain value, such a reference counts as a single id or as no dependency
  array, where `mmd.js:32` and `mmd.js:27` would see an array. Only `Mmd.Request.InPlace`
  carries an array with identity into `require`.
- `Pods.Pod.Define`: a dependency array must hold strings (the documented "array of
  dependency ids"). A non-string element, which JavaScript would turn into a property
  key, is not modelled.
- The static registry is the function `Pod` itself (`pods.js:7`), so `typeof Pod` is
  `'function'`. The model gives a registry one type, that of an object (`Ref`). A call
  such as `x.define('y', Pod)` or `Pod.require(ids, Pod)` would make `pods.js` call `Pod`
  as a factory or as a callback; the model wraps the registry as a constant export or
  calls no callback.
- `MmdProperties.Lazy`: laziness is stated only when the factories the call runs return
  truthy values. A module whose factory returned a falsy value is built again later in the same call, and that build
  resolves its overwritten dependency array, so the values in its slots are taken as ids
  (`mmd.js:64`).
- `mmd.js` calls any truthy callback that has an `apply` member. The model calls a callback
  only when it is a function: objects with their own `apply` are left out.
- A flag that is always released, and a registry's own names that always resolve to the
  registry, are not modelled. The code leaves the flag set when a build fails. In
  `pods.js` a defined module also shadows the registry's names. The model follows the
  code (`StaleFlag`, `Position`).
- Instances are isolated by construction: each method modifies only its own object's
  fields. No separate lemma states isolation between two registries.
- `PodsProperties.OnceOne`: at-most-once is stated only when the factories the call runs
  return truthy values. A factory returning a falsy export is rebuilt on every `require`,
  as in the source (`pods.js:93`).
- `MmdProperties.OnceOne`: at-most-once is stated under the same condition, for the same
  reason (`mmd.js:55`).

