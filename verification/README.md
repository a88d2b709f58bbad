# Object composition compiler — a Dafny model

This project models the core of a small JavaScript object-composition engine.

- **Compiler.** A *specification* is a plain object whose keys are
  *declarations* such as `var$count`, `once$cache` or `extend$methods`. The
  compiler turns a specification into a *Type*:
  - it reads the `type$` directive and merges in the mixin Types it names,
    leftmost first;
  - it builds one *Descriptor* per own declaration, through the facet
    (policy) named before the `$`;
  - it installs every descriptor on a fresh *template* object.
- **Facets.** The facet registry `base` holds the policies `var`, `const`,
  `oncevar`, `get`, `virtual`, `once` and `extend`. They decide which
  property a member becomes and how instances read and write it.
- **Loader.** The loader finds the `use$name` declarations of a
  specification. It patches each dependency's payload in as it arrives, and
  compiles the specification once nothing is pending.

Modules:

- `values.dfy` (module `Values`): JavaScript values and truthiness. The
  string operations the code uses (`indexOf`, `substring`, `split(" ")`).
  Objects as ordered key/value lists (`Assoc`) with `Put`, `Remove` and
  `Lookup`. The error kinds.
- `facets.dfy` (module `Facets`):
  - the seven policies and the partial property descriptor each writes;
  - `Reflect.defineProperty` as `Install`;
  - a descriptor's `define`, including the `extend` facet's `$super`
    linking;
  - `Type.implementOn`;
  - per-instance reads and writes of installed members.
- `compiler.dfy` (module `Compiler`): the compilation state. The program
  keeps this state on its objects: the TYPE, SCOPE and STATUS symbols, the id
  counter and the `$super` links. The model holds it in an explicit `State`.
  It also has `compile`, `compileType`, `compileMixins`, `mixin`,
  `compileDescriptors`, `createDescriptor`, `parseDeclaration` and `forName`,
  written as mutually recursive functions. Termination is by the number of
  specifications not yet compiled.
- `loader.dfy` (module `Loader`): `parse`, `receive` and `finish`, and the
  dispatch part of `compile`. Arrivals are an explicit sequence of
  (name, payload) events.

Fetching, module import and console output are not modelled. An arrival is an
event, and a rejected definition is reported in a list of names instead of a
console warning.

## Model

| member | source | states |
|---|---|---|
| Values.IndexOf | build/compiler.js:128 | `indexOf` gives -1 exactly when the character is absent, and otherwise its first position |
| Values.Substring | build/compiler.js:131-138 | `substring` clamps each bound into [0, length] and swaps them when the first is larger: in-range bounds give the slice in either order, a negative bound acts as 0 (so `substring(0, -1)` is ""), and a bound past the end acts as the length |
| Values.SubstringSwap | build/compiler.js:131-138 | swapping the two bounds never changes the result |
| Values.Split | build/compiler.js:82 | `split(" ")` gives at least one piece, and no piece contains a space |
| Values.JoinSplit | build/compiler.js:82 | joining the pieces of a split with single spaces gives the original string back |
| Values.SplitJoin | build/compiler.js:82 | splitting a space-joined list of space-free pieces gives the list back, empty pieces included |
| Values.Put | build/compiler.js:104 | property assignment: the key now holds the value, other keys are unchanged, a new key goes last, and keys stay unique |
| Values.Remove | build/loader.js:42-43 | `delete`: the key is gone, other keys are unchanged, and keys stay unique |
| Facets.Install | src/facets.js:10 | `Reflect.defineProperty`: a new property is added exactly when the object is extensible; a configurable one can always be redefined, and a non-configurable one cannot be made configurable; stated fields win; missing fields of a new property default to undefined and false |
| Facets.NewDescriptor | src/facets.js:3-100 | the property each policy installs on a fresh object: var is writable data, const is read-only data, oncevar is a default getter with an installing setter, get/virtual use a function expression as accessor and fall back to read-only data otherwise, once is a non-enumerable initializing getter |
| Facets.LinkSuper | src/facets.js:112-114 | one extend entry never replaces an existing `$super`; it links only the declared function, and only to an inherited function |
| Facets.ExtendEntries | src/facets.js:110-116 | the extend loop copies every declared entry onto the extension and keeps other names |
| Facets.ExtendKeepsSupers | src/facets.js:112 | an existing `$super` survives the whole loop |
| Facets.ExtendNewSupers | src/facets.js:112-113 | every new `$super` belongs to a declared function and is the inherited function of its name |
| Facets.ExtendLinksOverrides | src/facets.js:112-113 | every declared function that overrides an inherited function gets a `$super` |
| Facets.ExtendObject | src/facets.js:109-116 | the extension inherits from the current member (or from nothing when that is falsy); declared names read the declaration, others fall through |
| Facets.ExtendLinksSuper | src/facets.js:108-120 | `$super` linking of extend's `define`, in both directions: overrides get linked, and nothing else is |
| Facets.Define | src/facets.js:9-11 | `define` changes at most the declared name; only extend can fail, exactly when the current member is truthy and cannot be a prototype |
| Facets.DefineFrame | src/facets.js:9-11 | every other own property is kept by `define` |
| Facets.DefineFresh | src/facets.js:108-120 | on an extensible object lacking the name, `define` installs the policy's property, or a non-writable, non-enumerable extension object for extend |
| Facets.ImplementOn | build/compiler.js:27-34 | `implementOn` keeps the object's prototype and extensibility, and fails only with an extend inheritance error |
| Facets.ImplementOnCovers | build/compiler.js:28-32 | every descriptor is installed or reported: a failed define does not stop the loop |
| Facets.ImplementOnReports | build/compiler.js:30-31 | only declared names are reported |
| Facets.ImplementOnFrame | build/compiler.js:27-34 | undeclared properties are untouched and none is lost |
| Facets.ImplementOnFresh | build/compiler.js:27-34 | on a fresh extensible object with distinct names, every member is installed and nothing is reported |
| Facets.ImplementOnFreshDefines | build/compiler.js:27-34 | on a fresh extensible object with distinct names, every descriptor is installed exactly as its facet defines it on a fresh object |
| Facets.DefineFreshDefines | src/facets.js:108-120 | `define` on an extensible object lacking the name succeeds and installs the facet's fresh property |
| Facets.ExtendObjectIgnoresSupers | src/facets.js:108-116 | the extension object extend builds does not depend on which `$super` links existed before |
| Facets.ReadProp | src/facets.js:26-28 | a value the instance owns is read back as it is; a read calls at most one user function; owned properties are never lost |
| Facets.WriteProp | src/facets.js:29-36 | a write changes only the written name and calls at most one user function |
| Facets.OnceRunsOnce | src/facets.js:87-96 | once: the first read runs the initializer once and caches its value as writable data; the second read runs nothing |
| Facets.OnceWriteBeforeRead | src/facets.js:79-86 | once: a write before any read installs the value without running the initializer |
| Facets.OnceNeedsFunction | src/facets.js:73-78 | once with a non-function expression: the first read fails |
| Facets.OnceVarOverride | src/facets.js:23-36 | oncevar: reads give the default until a write, and after that the latest written value |
| Facets.ConstIsReadOnly | src/facets.js:13-20 | const: reads give the expression, and a write is rejected |
| Facets.VarIsWritable | src/facets.js:4-12 | var: reads give the expression until a write, then the written value |
| Facets.GetCallsGetter | src/facets.js:41-55 | get with a function: each read calls it, and a write is rejected |
| Facets.VirtualSharesFunction | src/facets.js:56-72 | virtual with a function: the same function serves reads and writes |
| Compiler.NewType | build/compiler.js:3-17 | the Type constructor takes the next id, records the Type on the specification, starts with no descriptors or mixins, tags its template exactly when the name is proper, and fails exactly when the enclosing scope is not compiled |
| Compiler.NewTypeScope | build/compiler.js:8 | `definedIn`: null without a scope, otherwise the enclosing Type's template |
| Compiler.NameCheckAsWritten | build/compiler.js:14 | the naming test as written fails exactly for the empty name |
| Compiler.NameCheckCorrected | build/compiler.js:14 | the corrected test treats "" as not a proper name and agrees with the code everywhere else |
| Compiler.FreshIdsIncrease | build/compiler.js:6 | a new Type's id is above every existing id, and the counter moves past it |
| Compiler.Compile | build/compiler.js:66-71 | an already compiled specification returns its template and changes nothing; otherwise it gets the next id and, on success, a built Type whose template is returned |
| Compiler.CompileIsMemoized | build/compiler.js:67-68 | compiling again returns the same template and state, whatever name is passed |
| Compiler.CompileType | build/compiler.js:72-80 | on success the new Type is compiled from the specification: its descriptors are the merged mixins overwritten by its own declarations, each own descriptor comes from the member key at the same position, the recorded mixins are the `type$` names with the Types applied for them, every descriptor is installed on the template, and the status flags are as before |
| Compiler.Extend | build/compiler.js:74-79 | STATUS is set only while the mixins merge, and on success the Type is compiled from the specification as for `Compiler.CompileType` |
| Compiler.Extending | build/compiler.js:75-77 | the STATUS flag set for the mixin merge is cleared again on success, the merge satisfies `MixedIn`, the recorded mixins are the `type$` names with the Types applied for them, and the Type's shell is unchanged |
| Compiler.Own | build/compiler.js:78-116 | own descriptors are built from the specification's member keys in order and folded over the merged mixins; the recorded mixins are untouched; every descriptor is then installed on the template as its facet defines it |
| Compiler.Finish | build/compiler.js:27-34 | every descriptor name is installed on the template, every descriptor is installed exactly as its facet defines it on a fresh object, and only the template changes |
| Compiler.MixinList | build/compiler.js:82 | `(type$ \|\| "").split(" ")`: a falsy `type$` gives [""], a string gives pieces that join back to it, and any other value is an error |
| Compiler.NonEmpty | build/compiler.js:84-85 | empty pieces are skipped and nothing else is |
| Compiler.NonEmptyAppend | build/compiler.js:83-85 | skipping empty pieces distributes over concatenation |
| Compiler.CompileMixins | build/compiler.js:81-93 | on success the recorded mixins are the non-empty `type$` names, in order, each with the Type applied for it; a mixin's error is wrapped as "Compiling … implementing …" with the Type's name (or "(unnamed)") and the mixin name; a `type$` that cannot be split is not wrapped |
| Compiler.ApplyMixins | build/compiler.js:83-92 | mixins merge left to right; on success the recorded mixins are the old ones updated name by name, in order, with the Type applied for each name; on failure the error names the Type and a name of the list all of whose predecessors were recorded, that is the first failing name |
| Compiler.Record | build/compiler.js:107 | recording mixins name by name adds exactly the names recorded |
| Compiler.RecordAt | build/compiler.js:107 | a name not repeated later keeps the Type recorded for it |
| Compiler.RecordKeeps | build/compiler.js:107 | a name not recorded keeps its earlier Type |
| Compiler.AppliedCons | build/compiler.js:83-92 | one mixin applied and recorded, then the rest: the merge and the record extend by that mixin |
| Compiler.FailedLater | build/compiler.js:86-91 | a failure among the remaining names follows a run of recorded names |
| Compiler.Mixin | build/compiler.js:94-108 | on success the mixin's descriptors fill only missing members, and the mixin is recorded under its name |
| Compiler.MixinTarget | build/compiler.js:95-100 | the checks `mixin` makes on the lookup, each in both directions: a lookup error propagates, a falsy result is "not found", a value without a Type is "not a Type", a Type whose STATUS is set is the cycle error, and only a Type not under construction is accepted |
| Compiler.MixinInProgressIsCycle | build/compiler.js:99-100 | naming a Type whose STATUS is set gives the cycle error |
| Compiler.UnboundMixinNotFound | build/compiler.js:96-97 | a name bound nowhere on an ending scope chain gives "not found" |
| Compiler.MergeMissingLookup | build/compiler.js:102-106 | a member already present wins over the mixin's |
| Compiler.MergeAllFirstWins | build/compiler.js:83-106 | own members beat every mixin, the leftmost mixin with a member wins, and absent members stay absent |
| Compiler.MemberKeys | build/compiler.js:111-112 | the declarations visited are exactly the keys not ending in `$` |
| Compiler.MemberKeysAppend | build/compiler.js:111-112 | declarations are visited one at a time in key order: the member keys of two runs of keys are those of the first followed by those of the second, and a single key is kept exactly when it does not end in `$` |
| Compiler.CompileDescriptors | build/compiler.js:109-117 | one descriptor per member key, in order, each built from its declaration and put into the Type's descriptors |
| Compiler.DeclareAll | build/compiler.js:111-116 | the loop over member keys builds and assigns their descriptors in order |
| Compiler.Declare | build/compiler.js:113-114 | one declaration gives a descriptor matching its key, and a failure leaves the Type unchanged |
| Compiler.FoldPutLastWins | build/compiler.js:114 | a member holds the descriptor of its last declaration |
| Compiler.OwnBeforeMixins | build/compiler.js:76-114 | in a Type compiled from a specification, a member that one of the specification's keys declares holds the descriptor built from the last such key; any other member holds the descriptor of the leftmost mixin that has it, and a member nobody has is absent |
| Compiler.LastNamedDeclared | build/compiler.js:111-114 | when descriptors are built one per key in order, the last descriptor with a member name is the one built from the last key declaring that name |
| Compiler.Composed | build/compiler.js:83-114 | descriptors folded over merged mixins: the last declaration of a member wins, otherwise the leftmost mixin that has it, otherwise it is absent |
| Compiler.AppliedAsNamed | build/compiler.js:83-107 | the i-th non-empty `type$` name is recorded with the i-th Type merged, unless a later name repeats it |
| Compiler.CompiledMemberInstalled | build/compiler.js:111-125 | when the last declaration of a member is a plain value under a facet other than extend, the compiled template holds exactly the property that facet defines for that value, which is where the facet lemmas about instances start |
| Compiler.LookupFresh | build/compiler.js:28-29 | the descriptor found under a name is one the template was built from |
| Compiler.CreateDescriptor | build/compiler.js:118-126 | the descriptor carries the parsed name and policy and, for a non-specification member, its value; parse errors propagate, and a plain member without a default facet is an error |

| Compiler.MemberValue | build/compiler.js:119-124 | a member that is not a nested specification is used as it is |
| Compiler.MemberValueSpec | build/compiler.js:121-123 | a nested specification first records its holder as its scope and is then looked up by the member name from itself |
| Compiler.NestedScopeChain | build/compiler.js:122-141 | the scope chain from a nested specification is itself, then its holder |
| Compiler.NestedLookup | build/compiler.js:141-145 | a nested specification that does not bind the name passes the lookup on to its holder |
| Compiler.ResolveSpec | build/compiler.js:146-149 | `forName` meeting an uncompiled specification records the scope it was found in and compiles it under the name looked up |
| Compiler.ResolveScoped | build/compiler.js:146-149 | the same, when that scope is already recorded |
| Compiler.SetScopeAgain | build/compiler.js:122-147 | recording the scope a specification already records changes nothing |
| Compiler.NestedSpecCompiled | build/compiler.js:118-149 | a member `key` holding an uncompiled nested specification that does not bind `key` is compiled under the member name with its holder as scope; the descriptor holds the new Type's template, and a failing compilation is the member's error |
| Compiler.PlainKeyDescriptor | build/compiler.js:118-139 | a key without `$` under a default facet gives that facet's descriptor of the member value |
| Compiler.NestedForName | build/compiler.js:141-149 | the lookup from such a nested specification compiles it |
| Compiler.NestedMemberValue | build/compiler.js:119-124 | the member value of such a nested specification is its compiled template |
| Compiler.NestedSpecCheckAsWritten | build/compiler.js:121 | the nested-specification test as written fails exactly for null |
| Compiler.NullMemberIsPlain | build/compiler.js:121 | with the corrected test, a null member gets an ordinary descriptor holding null |
| Compiler.ParseNoFacet | build/compiler.js:127-138 | a key without `$` is the member name under the default facet |
| Compiler.ParseLeadingDollar | build/compiler.js:130 | a leading `$` is dropped and the default facet is used |
| Compiler.ParseFacetPrefix | build/compiler.js:128-138 | the text before the first `$` picks the facet; an unknown facet is "not defined" |
| Compiler.ParseDeclKey | build/compiler.js:127-139 | facet and member name round-trip through the declaration key |
| Compiler.ScopeChain | build/compiler.js:141 | the scopes visited follow SCOPE links without repeats, and either end or close on themselves |
| Compiler.ForNameFirstBinding | build/compiler.js:141-151 | the first truthy binding on the chain decides the result |
| Compiler.ForNameUnbound | build/compiler.js:141-153 | a name bound nowhere gives undefined, or the ScopeLoop error on a closed chain |
| Compiler.Resolve | build/compiler.js:143-150 | a compiled value gives its template, an uncompiled specification is compiled, and anything else is returned as it is |
| Compiler.ScopeLoopAsWritten | build/compiler.js:141 | the loop as written only ever visits the start or a SCOPE target, and can leave the chain only after a step |
| Compiler.ScopeLoopNeverExits | build/compiler.js:141 | with two specifications that are each other's scope, the loop as written never exits |
| Loader.DependencyOf | build/loader.js:28-32 | a key names a dependency exactly when it starts with `use$`; the dependency is the rest of the key |
| Loader.Parse | build/loader.js:26-38 | parsing keeps every file already pending |
| Loader.ParseRecords | build/loader.js:26-38 | a dependency gets the uri of its `use$` key; other pending entries are kept |
| Loader.ParsePending | build/loader.js:26-38 | the pending names are the old ones plus the declared ones |
| Loader.StartRequests | build/loader.js:9-23 | `compile` requests exactly the pending and the declared files |
| Loader.StartWithoutDependencies | build/loader.js:9-23 | without `use$` keys nothing is requested |
| Loader.Arrive | build/loader.js:43-44 | an arrival drops its own name, keeps the others, and triggers `finish` exactly when nothing else was pending |
| Loader.Receive | build/loader.js:39-46 | the payload replaces the `use$` key; `finish` runs exactly when nothing is pending, with the patched source and the stored name |
| Loader.Patch | build/loader.js:41-42 | the payload is under the bare name, the `use$name` key is gone, and other keys are unchanged |
| Loader.RunFiresWithTag | build/loader.js:44-49 | every `finish` happens at one of the arrivals and uses the stored name |
| Loader.FiresOnceAtLast | build/loader.js:39-46 | when every pending file arrives once, in any order, `finish` runs exactly once, at the last arrival |
| Loader.LoadedSource | build/loader.js:41-42 | after all arrivals every payload is under its bare name and no `use$name` key is left |
| Loader.ReceiveAfterCompletionFiresAgain | build/loader.js:44-45 | with nothing pending, any further arrival runs `finish` again: the barrier does not latch |
| Loader.UnnamedLoadReachesEmptyName | build/loader.js:10 | a load started without a name reaches `finish` with the name "" |

## Left out

- Compiler.NewType: an empty name is treated as not proper, and the Type is built. The constructor as written throws for "" (see Findings).
- Compiler.NewType: names are strings, so `compile(spec)` without a name is not modelled; as written `name.at(0)` then throws a TypeError on `undefined` (build/compiler.js:14).
- Compiler.CreateDescriptor: a null member becomes an ordinary member holding null. As written, `Object.hasOwn(null, …)` throws (see Findings).
- Compiler.ForName: a SCOPE chain that closes on itself ends with the ScopeLoop error. The loop as written never ends there (see Findings), and the termination argument relies on this error.
- Facets.ReadProp: oncevar and once read the descriptor's own name, default, setter and initializer. As written the getter and setter closures read `this.expr`, `this.name` and `this.set` from the instance (src/facets.js:27, 30, 80, 94). There, an oncevar read returns the instance's `expr` property, and a first once read throws at `this.set.call`.
- Facets.WriteProp: same as `Facets.ReadProp` — the oncevar/once setter installs under the descriptor's name, not under the instance's `name` property.
- Facets.Define: `object[this.name]` in extend's `define` (src/facets.js:109) is read with `ReadMember`, which gives undefined for an accessor instead of running its getter. So for a get or virtual member below an extend, the model's inheritance error and `$super` links can differ from the program's.
- Compiler.MemberValue: its own contract states only the plain-member case; the nested-specification branch is stated by `Compiler.NestedSpecCompiled`, for keys without `$`. For a key `f$m`, the lookup is by `m`, which the holder does not bind under that name, so the walk continues outward; this case has no lemma.
- Facets.ReadProp: the once getter's `this[Symbol["status"]]` guard is left out (`Symbol["status"]` is undefined).
- Compiler.Finish: the template has no prototype (`Target([], map[], true)`), so `prototype$` (build/compiler.js:11) is dropped.
  - An extend member in a compiled Type never chains to an inherited member and never gets `$super` through `Compile`.
  - The facet lemmas state extend chaining for any target.
- Compiler.MemberKeys: declarations are visited in insertion order. The rule that `for…in` visits integer-like keys first, in numeric order, is not modelled (build/compiler.js:102, 111; build/loader.js:27).
- Compiler.Mixin: the same insertion-order simplification applies to the merge loop over a mixin's descriptors.
- Compiler.Binding: `scope[name]` reads only own properties. Members inherited from `Object.prototype` (`toString`, `constructor`, …) are not found, so `type$: "toString"` is "not found" rather than a TypeError.
- Facets.EntriesOf: `for (name in expr)` and `ext[name]` see members only of stored plain objects and extension objects. Strings, functions and templates contribute none.
- Values.Value: numbers are integers (no NaN, no fractions); numeric values never matter to the composition logic.
- Compiler.UpperOf: only ASCII letters are upper-cased.
- Compiler.NewType: `Symbol.toStringTag` on the template and `Object.freeze(type)` are represented only by the `tagged` flag and by the Type never being modified after it is built.
- Loader.Start: the requests are a name-to-uri map, so their dispatch order is not modelled. `fetch`, `import()`, `.json` detection and the "done" log are left out.
- Loader.Finish: hands the patched properties and stored name to the compiler but does not call `Compiler.Compile`. Turning a loaded specification into a compiler `State` is not modelled. `typeof source == "object"` always holds for a specification.
- Loader.LoadedSource: assumes no dependency is named like another's `use$` key. Such a name would let a later arrival re-add a removed key.
- Loader.Run: only the pending files are threaded through the arrival sequence. The patched properties are `Loader.PatchAll`, stated separately by `Loader.LoadedSource`.
- `console.debug`, `console.warn` and `console.error` are left out. An implementOn failure is returned as a reported name.

## Findings

| source | as written | input that shows it | evidently intended | confidence | as-written member | corrected member |
|---|---|---|---|---|---|---|
| build/compiler.js:14 | `name.at(0) == name.at(0).toUpperCase()` | compile a specification under the name "", which the loader passes when started without a name (build/loader.js:10); `compile(spec)` with no name at all throws earlier, at `undefined.at(0)` | an empty name is simply not a proper name | high, not executed | Compiler.NameCheckAsWritten, Loader.UnnamedLoadReachesEmptyName | Compiler.NameCheckCorrected, Compiler.NewType |
| build/compiler.js:121 | `typeof source == "object" && Object.hasOwn(source, TYPE_PROP)` | a specification `{x: null}`: `typeof null` is "object" and `Object.hasOwn(null, …)` throws | a null member is an ordinary member | high, not executed | Compiler.NestedSpecCheckAsWritten | Compiler.NullMemberIsPlain, Compiler.CreateDescriptor |
| build/compiler.js:141 | `for (let scope = source; scope; scope = scope[SCOPE])` | A = `{type$: "", b: B}`, B = `{type$: "", a: A, c: C}`, C = `{type$: "Missing"}`, compile A: `createDescriptor` sets B's scope to A, then (A having `type$`) A's scope to B (line 122), and the lookup of "Missing" from C visits C, B, A, B, A, … | stop at a scope already visited and report it | medium, not executed | Compiler.ScopeLoopAsWritten, Compiler.ScopeLoopNeverExits | Compiler.ForNameUnbound |
