/*
 * The compiler: turns a specification object into a Type. Compilation state
 * that the program keeps on its objects (the TYPE, SCOPE and STATUS symbols,
 * the id counter, the `$super` properties of functions) is an explicit State.
 */
module Compiler {
  import opened Values
  import opened Facets

  /** The compiled result of one specification. */
  datatype Type = Type(
    id: nat,
    name: string,
    definedIn: Value,                // template of the enclosing scope's Type, or null
    descriptors: Descriptors,        // member name -> Descriptor, in insertion order
    mixins: map<string, nat>,        // declared mixin name -> mixin Type id
    template: Assoc<PropDesc>,       // the template's own properties
    built: bool,                     // the constructor ran to completion
    tagged: bool)                    // the template is named after the Type

  datatype State = State(
    facets: map<string, Facet>,  // the compiler's registry
    objs: Store,                 // plain objects and arrays, specifications among them
    scopeOf: map<nat, nat>,      // SCOPE: the specification a specification was found in
    typeOf: map<nat, nat>,       // TYPE: the Type a specification compiled to
    types: map<nat, Type>,
    status: set<nat>,            // STATUS: Types whose mixins are being merged
    supers: Supers,
    nextId: nat)                 // NEXT_ID

  /** Every entry is stored under its descriptor's own name. */
  predicate NamesMatch(ds: Assoc<Descriptor>) {
    forall i :: 0 <= i < |ds| ==> ds[i].1.name == ds[i].0
  }

  /** A descriptor map keyed by the descriptors' own names. */
  predicate Keyed(ds: Assoc<Descriptor>) {
    KeysUnique(ds) && NamesMatch(ds)
  }

  /** Descriptor maps as the compiler keeps them. */
  type Descriptors = ds: Assoc<Descriptor> | Keyed(ds)

  predicate TypeOk(t: nat, ty: Type) {
    ty.id == t
  }

  predicate Valid(s: State) {
    && StoreWellFormed(s.objs)
    && (forall t :: t in s.types ==> t < s.nextId && TypeOk(t, s.types[t]))
    && (forall o :: o in s.typeOf ==> s.typeOf[o] in s.types)
    && (forall t :: t in s.status ==> t in s.types)
  }

  /** What every step of compilation keeps: objects and the registry are
      untouched, a specification keeps its Type, Types are never removed and
      every new Type has an id no earlier Type had. */
  predicate Grows(s: State, s': State) {
    && s'.objs == s.objs && s'.facets == s.facets
    && (forall o :: o in s.typeOf ==> o in s'.typeOf && s'.typeOf[o] == s.typeOf[o])
    && (forall t :: t in s.types ==> t in s'.types)
    && s.nextId <= s'.nextId
    && (forall t :: t in s'.types && t !in s.types ==> s.nextId <= t)
    && Valid(s')
  }

  /** No Type that existed before is changed, except those in `except`. */
  predicate Preserves(s: State, s': State, except: set<nat>) {
    forall t :: t in s.types && t !in except ==> t in s'.types && s'.types[t] == s.types[t]
  }

  lemma Trans(a: State, b: State, c: State, x: set<nat>, y: set<nat>)
    requires Grows(a, b) && Grows(b, c) && Preserves(a, b, x) && Preserves(b, c, y)
    ensures Grows(a, c) && Preserves(a, c, x + y)
  {
  }

  /** Replace the record of Type `t`. */
  function SetType(s: State, t: nat, ty: Type): (s': State)
    requires Valid(s) && t in s.types && TypeOk(t, ty)
    ensures Grows(s, s') && Preserves(s, s', {t})
    ensures s'.types == s.types[t := ty]
    ensures s'.status == s.status && s'.scopeOf == s.scopeOf && s'.typeOf == s.typeOf
    ensures s'.supers == s.supers && s'.nextId == s.nextId
  {
    s.(types := s.types[t := ty])
  }

  /** `value[SCOPE] = scope`. */
  function SetScope(s: State, o: nat, scope: nat): (s': State)
    requires Valid(s)
    ensures Grows(s, s') && Preserves(s, s', {})
    ensures s'.scopeOf == s.scopeOf[o := scope] && Pending(s') == Pending(s)
    ensures s'.status == s.status && s'.types == s.types && s'.typeOf == s.typeOf && s'.nextId == s.nextId
  {
    s.(scopeOf := s.scopeOf[o := scope])
  }

  /** Set or clear STATUS flags. */
  function SetStatus(s: State, status: set<nat>): (s': State)
    requires Valid(s) && forall t :: t in status ==> t in s.types
    ensures Grows(s, s') && Preserves(s, s', {})
    ensures s'.status == status && Pending(s') == Pending(s)
    ensures s'.scopeOf == s.scopeOf && s'.types == s.types && s'.typeOf == s.typeOf && s'.nextId == s.nextId
  {
    s.(status := status)
  }

  /** The specifications that have no Type yet: every nested compilation
      gives one of them a Type, which is why compilation terminates. */
  function Pending(s: State): set<nat> {
    s.objs.Keys - s.typeOf.Keys
  }

  lemma PendingShrinks(s: State, s': State)
    requires s'.objs == s.objs && forall o :: o in s.typeOf ==> o in s'.typeOf
    ensures Pending(s') <= Pending(s)
    ensures |Pending(s')| <= |Pending(s)|
  {
    assert Pending(s') <= Pending(s);
    SubsetCard(Pending(s'), Pending(s));
  }

  /** Giving a pending specification its Type shrinks the pending set. */
  lemma PendingDrops(s: State, s': State, src: nat)
    requires s'.objs == s.objs && src in s.objs && src !in s.typeOf
    requires s'.typeOf == s.typeOf[src := s.nextId]
    ensures |Pending(s')| < |Pending(s)|
  {
    assert Pending(s') == Pending(s) - {src};
  }

  lemma {:induction false} SubsetCard<T>(a: set<T>, b: set<T>)
    requires a <= b
    ensures |a| <= |b|
    decreases |b|
  {
    if a != {} {
      var x :| x in a;
      SubsetCard(a - {x}, b - {x});
    }
  }

  /** `type.prototype`: undefined when the constructor did not finish. */
  function TemplateOf(s: State, t: nat): Value
    requires t in s.types
  {
    if s.types[t].built then Proto(t) else Undefined
  }

  /** `value[TYPE]`, found on a compiled specification or along a template's
      prototype chain. */
  function TypeTag(s: State, v: Value): (r: Option<nat>)
    requires Valid(s)
    ensures r.Some? ==> r.value in s.types
    ensures v.Obj? ==> (r.Some? <==> v.o in s.typeOf)
  {
    match v
    case Obj(o) => if o in s.typeOf then Some(s.typeOf[o]) else None
    case Proto(t) => if t in s.types then Some(t) else None
    case Ext(p, _) => TypeTag(s, p)
    case _ => None
  }

  /** `Object.hasOwn(v, "type$")` on an object: `v` is a specification. */
  predicate IsSpec(objs: Store, v: Value) {
    v.Obj? && v.o in objs && "type$" in Keys(objs[v.o])
  }

  /** `scope[name]`. */
  function Binding(s: State, scope: nat, name: string): Value {
    if scope in s.objs then Get(s.objs[scope], name) else Undefined
  }

  // ------------------------------------------------------------ declarations

  /** The registry's `var` policy, used for declarations without a facet. */
  function DefaultPolicy(facets: map<string, Facet>): Option<Facet> {
    if "var" in facets then Some(facets["var"]) else None
  }

  /** `parseDeclaration(decl)`: split at the first `$` into facet and member
      name; a facet name must be registered. */
  function ParseDeclaration(facets: map<string, Facet>, decl: string): Result<(string, Option<Facet>)> {
    var index := IndexOf(decl, '$');
    var facetName := if index != 0 then Substring(decl, 0, index) else "";
    var member := Substring(decl, index + 1, |decl|);
    if facetName == "" then Ok((member, DefaultPolicy(facets)))
    else if facetName in facets then Ok((member, Some(facets[facetName])))
    else Err(FacetNotDefined(facetName))
  }

  /** A key without `$` declares itself under the default facet. */
  lemma ParseNoFacet(facets: map<string, Facet>, decl: string)
    requires '$' !in decl
    ensures ParseDeclaration(facets, decl) == Ok((decl, DefaultPolicy(facets)))
  {
    assert IndexOf(decl, '$') == -1;
    assert Substring(decl, 0, -1) == "";
    assert Substring(decl, 0, |decl|) == decl[0..|decl|] == decl;
  }

  /** A leading `$` also means the default facet; the rest is the name. */
  lemma ParseLeadingDollar(facets: map<string, Facet>, decl: string)
    requires |decl| > 0 && decl[0] == '$'
    ensures ParseDeclaration(facets, decl) == Ok((decl[1..], DefaultPolicy(facets)))
  {
    FirstIndex(decl, '$', 0);
    assert Substring(decl, 1, |decl|) == decl[1..];
  }

  /** `f$m` with a non-empty `f` before the first `$`: the facet registered
      as `f` and the member `m`, or the FacetNotDefined error. */
  lemma ParseFacetPrefix(facets: map<string, Facet>, decl: string, p: nat)
    requires 0 < p < |decl| && decl[p] == '$' && '$' !in decl[..p]
    ensures ParseDeclaration(facets, decl) ==
      if decl[..p] in facets then Ok((decl[p + 1..], Some(facets[decl[..p]])))
      else Err(FacetNotDefined(decl[..p]))
  {
    FirstIndex(decl, '$', p);
    assert Substring(decl, 0, p) == decl[..p];
    assert |decl[..p]| > 0;
    assert Substring(decl, p + 1, |decl|) == decl[p + 1..];
  }

  lemma FirstIndex(s: string, c: char, p: nat)
    requires p < |s| && s[p] == c && c !in s[..p]
    ensures IndexOf(s, c) == p
  {
    assert forall j :: 0 <= j < p ==> s[..p][j] == s[j];
    var i := IndexOf(s, c);
    assert forall j :: 0 <= j < i ==> s[..i][j] == s[j];
  }

  /** The declaration key for member `m` under facet `f`. */
  function DeclKey(f: string, m: string): string {
    f + "$" + m
  }

  /** Parsing inverts key construction: `f$m` declares `m` under facet `f`,
      or under the default facet when `f` is empty, whatever `m` contains. */
  lemma ParseDeclKey(facets: map<string, Facet>, f: string, m: string)
    requires '$' !in f
    ensures ParseDeclaration(facets, DeclKey(f, m)) ==
      if f == "" then Ok((m, DefaultPolicy(facets)))
      else if f in facets then Ok((m, Some(facets[f])))
      else Err(FacetNotDefined(f))
  {
    var k := DeclKey(f, m);
    assert k[|f|] == '$' && k[..|f|] == f && k[|f| + 1..] == m;
    if f == "" {
      ParseLeadingDollar(facets, k);
    } else {
      ParseFacetPrefix(facets, k, |f|);
    }
  }

  /** The member name a declaration key declares. */
  function MemberOf(decl: string): string {
    Substring(decl, IndexOf(decl, '$') + 1, |decl|)
  }

  /** Keys ending in `$` are directives (`type$`, `prototype$`, `use$x$`...),
      not members. */
  predicate IsDirective(decl: string) {
    EndsWith(decl, '$')
  }

  /** The member declarations of a specification, in order. */
  function MemberKeys(decls: Assoc<Value>): (ks: seq<string>)
    ensures forall i :: 0 <= i < |ks| ==> !IsDirective(ks[i])
    ensures forall k :: k in ks <==> k in Keys(decls) && !IsDirective(k)
  {
    if |decls| == 0 then []
    else if IsDirective(decls[0].0) then MemberKeys(decls[1..])
    else [decls[0].0] + MemberKeys(decls[1..])
  }

  /** Member keys are taken one declaration at a time, in order: the
      member keys of two runs of declarations are those of the first run
      followed by those of the second. */
  lemma {:induction false} MemberKeysAppend(a: Assoc<Value>, b: Assoc<Value>)
    ensures MemberKeys(a + b) == MemberKeys(a) + MemberKeys(b)
    ensures MemberKeys([]) == []
    ensures forall k, v :: MemberKeys([(k, v)]) == if IsDirective(k) then [] else [k]
    decreases |a|
  {
    if |a| > 0 {
      assert (a + b)[1..] == a[1..] + b;
      MemberKeysAppend(a[1..], b);
    } else {
      assert a + b == b;
    }
    forall k, v ensures MemberKeys([(k, v)]) == if IsDirective(k) then [] else [k] {
      assert [(k, v)][1..] == [];
    }
  }

  // ------------------------------------------------------------ mixin list

  /** `(source["type$"] || "").split(" ")`: the declared mixin names, empty
      pieces included; a truthy non-string has no `split` and throws. */
  function MixinList(v: Value): (r: Result<seq<string>>)
    ensures !Truthy(v) ==> r == Ok([""])
    ensures v.Prim? && v.p.Str? ==> r.Ok? && |r.value| >= 1 && Join(r.value) == v.p.s
    ensures r.Ok? ==> forall i :: 0 <= i < |r.value| ==> ' ' !in r.value[i]
    ensures r.Err? <==> Truthy(v) && !(v.Prim? && v.p.Str?)
  {
    if !Truthy(v) then
      assert IndexOf("", ' ') == -1;
      Ok(Split(""))
    else if v.Prim? && v.p.Str? then
      JoinSplit(v.p.s);
      Ok(Split(v.p.s))
    else Err(MixinListNotString)
  }

  /** The names the mixin loop applies: empty pieces are skipped. */
  function NonEmpty(names: seq<string>): (r: seq<string>)
    ensures forall i :: 0 <= i < |r| ==> r[i] != ""
    ensures forall n :: n in r <==> n in names && n != ""
    ensures |r| <= |names|
  {
    if |names| == 0 then []
    else if names[0] == "" then NonEmpty(names[1..])
    else [names[0]] + NonEmpty(names[1..])
  }

  /** Skipping empty names keeps the order of the rest: filtering a
      concatenation concatenates the filtered parts. */
  lemma {:induction false} NonEmptyAppend(a: seq<string>, b: seq<string>)
    ensures NonEmpty(a + b) == NonEmpty(a) + NonEmpty(b)
  {
    if |a| > 0 {
      assert (a + b)[1..] == a[1..] + b;
      NonEmptyAppend(a[1..], b);
    } else {
      assert a + b == b;
    }
  }

  /** `type.mixins[typeName] = mixinType` for each applied name in turn. */
  function Record(m: map<string, nat>, names: seq<string>, ts: seq<nat>): (r: map<string, nat>)
    requires |names| == |ts|
    ensures r.Keys == m.Keys + set i | 0 <= i < |names| :: names[i]
    decreases |names|
  {
    if |names| == 0 then m
    else
      var r := Record(m[names[0] := ts[0]], names[1..], ts[1..]);
      assert (set i | 0 <= i < |names| :: names[i]) == {names[0]} + set i | 0 <= i < |names[1..]| :: names[1..][i];
      r
  }

  /** The mixin record names each applied Type under its mixin name, the
      last application of a name winning; other entries are kept. */
  lemma {:induction false} RecordAt(m: map<string, nat>, names: seq<string>, ts: seq<nat>, i: nat)
    requires |names| == |ts| && i < |names|
    requires forall j :: i < j < |names| ==> names[j] != names[i]
    ensures Record(m, names, ts)[names[i]] == ts[i]
    decreases |names|
  {
    if i > 0 {
      forall j | i - 1 < j < |names[1..]| ensures names[1..][j] != names[1..][i - 1] {
        assert names[1..][j] == names[j + 1];
      }
      RecordAt(m[names[0] := ts[0]], names[1..], ts[1..], i - 1);
    } else {
      RecordKeeps(m[names[0] := ts[0]], names[1..], ts[1..], names[0]);
    }
  }

  lemma {:induction false} RecordKeeps(m: map<string, nat>, names: seq<string>, ts: seq<nat>, n: string)
    requires |names| == |ts| && n in m
    requires forall j :: 0 <= j < |names| ==> names[j] != n
    ensures Record(m, names, ts)[n] == m[n]
    decreases |names|
  {
    if |names| > 0 {
      forall j | 0 <= j < |names[1..]| ensures names[1..][j] != n { assert names[1..][j] == names[j + 1]; }
      RecordKeeps(m[names[0] := ts[0]], names[1..], ts[1..], n);
    }
  }

  // ------------------------------------------------------------ merging

  lemma KeyedPut(ds: Assoc<Descriptor>, d: Descriptor)
    requires Keyed(ds)
    ensures Keyed(Put(ds, d.name, d))
  {
    var r := Put(ds, d.name, d);
    forall i | 0 <= i < |r| ensures r[i].1.name == r[i].0 {
      if r[i] in ds {
        var j :| 0 <= j < |ds| && ds[j] == r[i];
      }
    }
  }

  /** A mixin contributes every member the map does not have yet. */
  function MergeMissing(dst: Assoc<Descriptor>, src: Assoc<Descriptor>): (r: Assoc<Descriptor>)
    ensures Keyed(dst) && NamesMatch(src) ==> Keyed(r)
    decreases |src|
  {
    if |src| == 0 then dst
    else
      var k := src[0].0;
      var d := src[0].1;
      var next := if k in Keys(dst) then dst else Put(dst, k, d);
      assert Keyed(dst) && NamesMatch(src) ==> Keyed(next) && NamesMatch(src[1..]) by {
        if Keyed(dst) && NamesMatch(src) {
          if k !in Keys(dst) { KeyedPut(dst, d); }
          assert forall i :: 0 <= i < |src[1..]| ==> src[1..][i] == src[i + 1];
        }
      }
      MergeMissing(next, src[1..])
  }

  /** The members a map already has keep their descriptors; every other
      member comes from the mixin. */
  lemma {:induction false} MergeMissingLookup(dst: Assoc<Descriptor>, src: Assoc<Descriptor>, k: string)
    ensures Lookup(MergeMissing(dst, src), k) == if k in Keys(dst) then Lookup(dst, k) else Lookup(src, k)
    decreases |src|
  {
    if |src| > 0 {
      var next := if src[0].0 in Keys(dst) then dst else Put(dst, src[0].0, src[0].1);
      MergeMissingLookup(next, src[1..], k);
      KeysTail(src);
    }
  }

  /** Applying mixins left to right. */
  function MergeAll(d: Assoc<Descriptor>, xs: seq<Assoc<Descriptor>>): (r: Assoc<Descriptor>)
    ensures Keyed(d) && (forall i :: 0 <= i < |xs| ==> NamesMatch(xs[i])) ==> Keyed(r)
    decreases |xs|
  {
    if |xs| == 0 then d
    else
      assert forall i :: 0 <= i < |xs[1..]| ==> xs[1..][i] == xs[i + 1];
      MergeAll(MergeMissing(d, xs[0]), xs[1..])
  }

  /** Leftmost mixin wins: after merging mixins in order, a member the map
      already had keeps its descriptor; any other member comes from the first
      mixin that has it. */
  lemma {:induction false} MergeAllFirstWins(d: Assoc<Descriptor>, xs: seq<Assoc<Descriptor>>, k: string)
    ensures k in Keys(d) ==> Lookup(MergeAll(d, xs), k) == Lookup(d, k)
    ensures forall i :: (0 <= i < |xs| && k !in Keys(d) && k in Keys(xs[i]) &&
      (forall j :: 0 <= j < i ==> k !in Keys(xs[j]))) ==> Lookup(MergeAll(d, xs), k) == Lookup(xs[i], k)
    ensures k !in Keys(d) && (forall i :: 0 <= i < |xs| ==> k !in Keys(xs[i])) ==> Lookup(MergeAll(d, xs), k) == None
  {
    if k in Keys(d) { MergeAllKeeps(d, xs, k); }
    forall i | 0 <= i < |xs| && k !in Keys(d) && k in Keys(xs[i]) && (forall j :: 0 <= j < i ==> k !in Keys(xs[j]))
      ensures Lookup(MergeAll(d, xs), k) == Lookup(xs[i], k)
    {
      MergeAllFirst(d, xs, k, i);
    }
    if k !in Keys(d) && (forall i :: 0 <= i < |xs| ==> k !in Keys(xs[i])) { MergeAllAbsent(d, xs, k); }
  }

  /** One merge step, read at `k`. */
  lemma MergeStep(d: Assoc<Descriptor>, xs: seq<Assoc<Descriptor>>, k: string)
    requires |xs| > 0
    ensures MergeAll(d, xs) == MergeAll(MergeMissing(d, xs[0]), xs[1..])
    ensures k in Keys(MergeMissing(d, xs[0])) <==> k in Keys(d) || k in Keys(xs[0])
    ensures Lookup(MergeMissing(d, xs[0]), k) == if k in Keys(d) then Lookup(d, k) else Lookup(xs[0], k)
  {
    MergeMissingLookup(d, xs[0], k);
  }

  lemma {:induction false} MergeAllKeeps(d: Assoc<Descriptor>, xs: seq<Assoc<Descriptor>>, k: string)
    requires k in Keys(d)
    ensures Lookup(MergeAll(d, xs), k) == Lookup(d, k)
    decreases |xs|
  {
    if |xs| > 0 {
      MergeStep(d, xs, k);
      MergeAllKeeps(MergeMissing(d, xs[0]), xs[1..], k);
    }
  }

  lemma {:induction false} MergeAllFirst(d: Assoc<Descriptor>, xs: seq<Assoc<Descriptor>>, k: string, i: nat)
    requires i < |xs| && k !in Keys(d) && k in Keys(xs[i])
    requires forall j :: 0 <= j < i ==> k !in Keys(xs[j])
    ensures Lookup(MergeAll(d, xs), k) == Lookup(xs[i], k)
    decreases |xs|
  {
    MergeStep(d, xs, k);
    var m := MergeMissing(d, xs[0]);
    if i == 0 {
      MergeAllKeeps(m, xs[1..], k);
    } else {
      var tail := xs[1..];
      assert tail[i - 1] == xs[i];
      forall j | 0 <= j < i - 1 ensures k !in Keys(tail[j]) { assert tail[j] == xs[j + 1]; }
      MergeAllFirst(m, tail, k, i - 1);
    }
  }

  lemma {:induction false} MergeAllAbsent(d: Assoc<Descriptor>, xs: seq<Assoc<Descriptor>>, k: string)
    requires k !in Keys(d) && forall i :: 0 <= i < |xs| ==> k !in Keys(xs[i])
    ensures Lookup(MergeAll(d, xs), k) == None
    decreases |xs|
  {
    if |xs| > 0 {
      MergeStep(d, xs, k);
      var tail := xs[1..];
      forall j | 0 <= j < |tail| ensures k !in Keys(tail[j]) { assert tail[j] == xs[j + 1]; }
      MergeAllAbsent(MergeMissing(d, xs[0]), tail, k);
    }
  }

  /** Own declarations assigned one after another. */
  function FoldPut(d: Assoc<Descriptor>, cs: seq<Descriptor>): (r: Assoc<Descriptor>)
    ensures Keyed(d) ==> Keyed(r)
    decreases |cs|
  {
    if |cs| == 0 then d
    else
      assert Keyed(d) ==> Keyed(Put(d, cs[0].name, cs[0])) by {
        if Keyed(d) { KeyedPut(d, cs[0]); }
      }
      FoldPut(Put(d, cs[0].name, cs[0]), cs[1..])
  }

  /** The position of the last descriptor named `k`, or -1. */
  function LastNamed(cs: seq<Descriptor>, k: string): (r: int)
    ensures -1 <= r < |cs|
    ensures r == -1 <==> forall i :: 0 <= i < |cs| ==> cs[i].name != k
    ensures r >= 0 ==> cs[r].name == k && forall j :: r < j < |cs| ==> cs[j].name != k
  {
    if |cs| == 0 then -1
    else if cs[|cs| - 1].name == k then |cs| - 1
    else LastNamed(cs[..|cs| - 1], k)
  }

  /** Own members win: after the own declarations, a member declared in them
      holds the last declaration's descriptor, and every other member keeps
      the descriptor it had. */
  lemma {:induction false} FoldPutLastWins(d: Assoc<Descriptor>, cs: seq<Descriptor>, k: string)
    ensures Lookup(FoldPut(d, cs), k) ==
      if LastNamed(cs, k) >= 0 then Some(cs[LastNamed(cs, k)]) else Lookup(d, k)
    decreases |cs|
  {
    if |cs| > 0 {
      var next := Put(d, cs[0].name, cs[0]);
      FoldPutLastWins(next, cs[1..], k);
      var l := LastNamed(cs[1..], k);
      if l >= 0 {
        assert cs[1..][l] == cs[l + 1];
        forall j | l + 1 < j < |cs| ensures cs[j].name != k {
          assert cs[j] == cs[1..][j - 1];
        }
        LastNamedAt(cs, k, l + 1);
      } else if cs[0].name == k {
        forall j | 0 < j < |cs| ensures cs[j].name != k {
          assert cs[j] == cs[1..][j - 1];
        }
        LastNamedAt(cs, k, 0);
      } else {
        forall j | 0 <= j < |cs| ensures cs[j].name != k {
          if j > 0 { assert cs[j] == cs[1..][j - 1]; }
        }
      }
    }
  }

  lemma LastNamedAt(cs: seq<Descriptor>, k: string, p: nat)
    requires p < |cs| && cs[p].name == k
    requires forall j :: p < j < |cs| ==> cs[j].name != k
    ensures LastNamed(cs, k) == p
  {
  }

  /** The descriptor maps of the given Types, in order. */
  function DescsOf(types: map<nat, Type>, ts: seq<nat>): (r: seq<Assoc<Descriptor>>)
    requires forall i :: 0 <= i < |ts| ==> ts[i] in types
    ensures |r| == |ts| && forall i :: 0 <= i < |ts| ==> r[i] == types[ts[i]].descriptors
  {
    seq(|ts|, i requires 0 <= i < |ts| => types[ts[i]].descriptors)
  }

  /** The descriptors of a descriptor map, in order. */
  function Descs(ds: Assoc<Descriptor>): (r: seq<Descriptor>)
    ensures |r| == |ds| && forall i :: 0 <= i < |ds| ==> r[i] == ds[i].1
  {
    seq(|ds|, i requires 0 <= i < |ds| => ds[i].1)
  }

  /** Everything about a Type except its descriptors and mixins. */
  predicate SameShell(a: Type, b: Type) {
    a.id == b.id && a.name == b.name && a.definedIn == b.definedIn && a.template == b.template
    && a.built == b.built && a.tagged == b.tagged
  }

  // ------------------------------------------------------------ the Type constructor

  /** Upper-casing of one character (ASCII letters). */
  function UpperOf(c: char): char {
    if 'a' <= c <= 'z' then (c as int - 32) as char else c
  }

  /** A type is named after its name when the name starts with an upper-case
      character. The empty name is simply not a proper name. */
  predicate IsProperName(name: string) {
    |name| > 0 && UpperOf(name[0]) == name[0]
  }

  /** The naming test as the constructor writes it: `name.at(0)` of the empty
      name is undefined, and calling `toUpperCase` on it throws. */
  function NameCheckAsWritten(name: string): (r: Result<bool>)
    ensures r.Err? <==> name == ""
  {
    if |name| == 0 then Err(EmptyTypeName) else Ok(UpperOf(name[0]) == name[0])
  }

  /** Away from the empty name the corrected test agrees with the code. */
  lemma NameCheckCorrected(name: string)
    ensures NameCheckAsWritten("") == Err(EmptyTypeName)
    ensures !IsProperName("")
    ensures name != "" ==> NameCheckAsWritten(name) == Ok(IsProperName(name))
  {
  }

  /** `source[TYPE] = this` with `this.id = NEXT_ID++`. */
  function AddType(s: State, src: nat, ty: Type): (s': State)
    requires Valid(s) && src in s.objs && src !in s.typeOf && TypeOk(s.nextId, ty)
    ensures Grows(s, s') && Preserves(s, s', {})
    ensures s'.typeOf == s.typeOf[src := s.nextId] && s'.nextId == s.nextId + 1
    ensures s.nextId !in s.types && s'.types == s.types[s.nextId := ty]
    ensures s'.scopeOf == s.scopeOf && s'.status == s.status && s'.supers == s.supers
  {
    s.(typeOf := s.typeOf[src := s.nextId], types := s.types[s.nextId := ty], nextId := s.nextId + 1)
  }

  /** `source[SCOPE][TYPE].prototype`, read by the constructor once
      `source[TYPE]` is set: null without a scope; undefined when the
      specification is its own scope (its Type's template does not exist
      yet); None when the scope has no Type, where the read throws. */
  function ScopeTemplate(s: State, src: nat): Option<Value>
    requires Valid(s)
  {
    if src !in s.scopeOf then Some(Prim(Null))
    else
      var sc := s.scopeOf[src];
      if sc == src then Some(Undefined)
      else if sc in s.typeOf then Some(TemplateOf(s, s.typeOf[sc]))
      else None
  }

  /** `new Type(source, name)`: marks the specification with a fresh Type
      carrying the next id, then reads `definedIn` from the enclosing scope's
      Type, which throws when that scope has none (leaving the half-built
      Type in place). */
  function NewType(s: State, src: nat, name: string): (r: (State, Result<nat>))
    requires Valid(s) && src in s.objs && src !in s.typeOf
    ensures Grows(s, r.0) && Preserves(s, r.0, {})
    ensures r.0.typeOf == s.typeOf[src := s.nextId] && r.0.nextId == s.nextId + 1
    ensures s.nextId !in s.types && s.nextId in r.0.types
    ensures |Pending(r.0)| < |Pending(s)|
    ensures r.0.scopeOf == s.scopeOf && r.0.status == s.status && r.0.supers == s.supers
    ensures var ty := r.0.types[s.nextId];
      ty.name == name && ty.descriptors == [] && ty.mixins == map[] && ty.template == []
      && ty.tagged == IsProperName(name) && ty.built == r.1.Ok?
    ensures r.1.Ok? <==> ScopeTemplate(s, src).Some?
    ensures r.1.Ok? ==> r.1.value == s.nextId && r.0.types[s.nextId].definedIn == ScopeTemplate(s, src).value
    ensures r.1.Err? ==> r.1.error == ScopeNotCompiled
  {
    var t := s.nextId;
    var scope := ScopeTemplate(s, src);
    var ty := Type(t, name, Undefined, [], map[], [], false, IsProperName(name));
    var s1 := AddType(s, src, ty);
    PendingDrops(s, s1, src);
    if scope.None? then (s1, Err(ScopeNotCompiled))
    else
      var s2 := SetType(s1, t, ty.(definedIn := scope.value, built := true));
      Trans(s, s1, s2, {}, {t});
      (s2, Ok(t))
  }

  /** What the constructor leaves behind: the Type's `definedIn` is null
      without an enclosing scope, undefined when the specification is its own
      scope, and otherwise the enclosing Type's template; an enclosing scope
      without a Type is the ScopeNotCompiled error. */
  lemma NewTypeScope(s: State, src: nat, name: string)
    requires Valid(s) && src in s.objs && src !in s.typeOf
    ensures var r := NewType(s, src, name);
      && (r.1.Ok? <==> src !in s.scopeOf || s.scopeOf[src] == src || s.scopeOf[src] in s.typeOf)
      && (r.1.Err? ==> r.1.error == ScopeNotCompiled)
      && (r.1.Ok? ==> (r.0.types[s.nextId].definedIn ==
            if src !in s.scopeOf then Prim(Null)
            else if s.scopeOf[src] == src then Undefined
            else TemplateOf(s, s.typeOf[s.scopeOf[src]])))
  {
  }


  // ------------------------------------------------------------ scope chain

  /** The scopes `forName` visits from `cur`, innermost first, and whether
      the chain returns to a scope already visited (the program would then
      loop forever once the name is found nowhere). */
  function Chain(scopeOf: map<nat, nat>, cur: nat, visited: set<nat>): (r: (seq<nat>, bool))
    requires cur !in visited
    ensures |r.0| >= 1 && r.0[0] == cur
    ensures forall i :: 0 <= i < |r.0| - 1 ==> r.0[i] in scopeOf && r.0[i + 1] == scopeOf[r.0[i]]
    ensures forall i, j :: 0 <= i < j < |r.0| ==> r.0[i] != r.0[j]
    ensures forall i :: 0 <= i < |r.0| ==> r.0[i] !in visited
    ensures !r.1 ==> r.0[|r.0| - 1] !in scopeOf
    ensures r.1 ==> r.0[|r.0| - 1] in scopeOf && (scopeOf[r.0[|r.0| - 1]] in visited + {cur} || scopeOf[r.0[|r.0| - 1]] in r.0)
    decreases |scopeOf.Keys - visited|
  {
    if cur !in scopeOf then ([cur], false)
    else
      var next := scopeOf[cur];
      if next in visited || next == cur then ([cur], true)
      else
        assert scopeOf.Keys - (visited + {cur}) == (scopeOf.Keys - visited) - {cur};
        var rest := Chain(scopeOf, next, visited + {cur});
        var r := [cur] + rest.0;
        assert forall i :: 1 <= i < |r| ==> r[i] == rest.0[i - 1];
        assert r[|r| - 1] == rest.0[|rest.0| - 1];
        assert forall x :: x in rest.0 ==> x in r;
        (r, rest.1)
  }

  /** From a specification: the chain starts at it, follows SCOPE links,
      never repeats a scope, and either ends at a specification without a
      scope or closes on itself. */
  function ScopeChain(s: State, src: nat): (r: (seq<nat>, bool))
    ensures |r.0| >= 1 && r.0[0] == src
    ensures forall i :: 0 <= i < |r.0| - 1 ==> r.0[i] in s.scopeOf && r.0[i + 1] == s.scopeOf[r.0[i]]
    ensures forall i, j :: 0 <= i < j < |r.0| ==> r.0[i] != r.0[j]
    ensures !r.1 <==> r.0[|r.0| - 1] !in s.scopeOf
    ensures r.1 ==> s.scopeOf[r.0[|r.0| - 1]] in r.0
  {
    Chain(s.scopeOf, src, {})
  }

  /** The scope loop of `forName` as written, `for (scope = source; scope;
      scope = scope[SCOPE])`, for a name bound nowhere: the scope it stands
      at after `n` iterations, or None once it has run off the chain. */
  function ScopeLoopAsWritten(scopeOf: map<nat, nat>, cur: nat, n: nat): (r: Option<nat>)
    ensures r.Some? ==> r.value == cur || r.value in scopeOf.Values
    ensures r.None? ==> n > 0
    decreases n
  {
    if n == 0 then Some(cur)
    else if cur !in scopeOf then None
    else ScopeLoopAsWritten(scopeOf, scopeOf[cur], n - 1)
  }

  /** Two specifications that are each other's scope: the loop as written is
      still on the chain after any number of iterations, so it never ends. */
  lemma {:induction false} ScopeLoopNeverExits(a: nat, b: nat, n: nat)
    ensures ScopeLoopAsWritten(map[a := b, b := a], a, n).Some?
    ensures ScopeLoopAsWritten(map[a := b, b := a], b, n).Some?
    decreases n
  {
    if n > 0 {
      ScopeLoopNeverExits(a, b, n - 1);
      assert map[a := b, b := a][a] == (if a == b then a else b);
    }
  }

  // ------------------------------------------------------------ compilation

  /** What compilation of one Type produced: its template, the mixin Types it
      merged in order, and the descriptors built from its own declarations. */
  datatype Built = Built(template: Value, applied: seq<nat>, created: seq<Descriptor>)

  /** Type `t`'s descriptors are `d0` with the given mixin Types merged in
      order. */
  predicate MixedIn(d0: Assoc<Descriptor>, s: State, t: nat, applied: seq<nat>) {
    && t in s.types
    && (forall i :: 0 <= i < |applied| ==> applied[i] in s.types && applied[i] != t)
    && s.types[t].descriptors == MergeAll(d0, DescsOf(s.types, applied))
  }

  /** The descriptor `d` was built from declaration `key` of specification
      `src`: its member name and policy are the ones the key declares, and
      a member value that is not a nested specification is its expression. */
  predicate DeclaredBy(facets: map<string, Facet>, objs: Store, src: nat, key: string, d: Descriptor)
    requires src in objs
  {
    && ParseDeclaration(facets, key) == Ok((d.name, Some(d.policy)))
    && d.facet == FacetName(d.policy) && d.fields == PolicyFields(d.policy, d.expr)
    && (!IsSpec(objs, Get(objs[src], key)) ==>
          d.expr == Get(objs[src], key))
  }

  predicate Declared(facets: map<string, Facet>, objs: Store, src: nat, keys: seq<string>, cs: seq<Descriptor>)
    requires src in objs
  {
    |cs| == |keys| && forall j :: 0 <= j < |cs| ==> DeclaredBy(facets, objs, src, keys[j], cs[j])
  }

  /** A compiled Type: its template is built, and its descriptors are the
      merged mixins overwritten by its own declarations. */
  predicate Compiled(s: State, t: nat, b: Built) {
    && t in s.types && s.types[t].built && b.template == Proto(t)
    && (forall i :: 0 <= i < |b.applied| ==> b.applied[i] in s.types)
    && s.types[t].descriptors == FoldPut(MergeAll([], DescsOf(s.types, b.applied)), b.created)
  }

  /** The mixins a Type records are the non-empty names of the
      specification's `type$`, in order, each naming the Type applied for it. */
  predicate MixinsFrom(objs: Store, src: nat, mixins: map<string, nat>, applied: seq<nat>) {
    && src in objs
    && var names := MixinList(Get(objs[src], "type$"));
    && names.Ok? && |applied| == |NonEmpty(names.value)|
    && mixins == Record(map[], NonEmpty(names.value), applied)
  }

  /** Type `t` compiled from specification `src`: its own descriptors were
      built from the specification's member declarations, in order, and the
      mixins merged are the ones its `type$` names. */
  predicate CompiledFrom(s: State, src: nat, t: nat, b: Built) {
    && Compiled(s, t, b) && src in s.objs
    && Declared(s.facets, s.objs, src, MemberKeys(s.objs[src]), b.created)
    && MixinsFrom(s.objs, src, s.types[t].mixins, b.applied)
    && Installs(s, t)
  }

  /** Every descriptor of Type `t` is installed on its template as the
      property its policy defines. */
  predicate Installs(s: State, t: nat) {
    && StoreWellFormed(s.objs) && t in s.types
    && forall i :: 0 <= i < |s.types[t].descriptors| ==>
         DefinedFresh(s.objs, s.types[t].template, s.types[t].descriptors[i].1)
  }

  lemma DescsOfStable(a: State, b: State, ts: seq<nat>, t: nat)
    requires Preserves(a, b, {t})
    requires forall i :: 0 <= i < |ts| ==> ts[i] in a.types && ts[i] != t
    ensures forall i :: 0 <= i < |ts| ==> ts[i] in b.types
    ensures DescsOf(b.types, ts) == DescsOf(a.types, ts)
  {
  }

  lemma MixedInCons(d0: Assoc<Descriptor>, s1: State, s2: State, t: nat, m: nat, rest: seq<nat>)
    requires Preserves(s1, s2, {t}) && t in s1.types && m in s1.types && m != t
    requires s1.types[t].descriptors == MergeMissing(d0, s1.types[m].descriptors)
    requires MixedIn(s1.types[t].descriptors, s2, t, rest)
    ensures MixedIn(d0, s2, t, [m] + rest)
  {
    var all := [m] + rest;
    assert m in s2.types && s2.types[m] == s1.types[m];
    forall i | 0 <= i < |all| ensures all[i] in s2.types && all[i] != t {
      if i > 0 { assert all[i] == rest[i - 1]; }
    }
    var xs := DescsOf(s2.types, all);
    assert xs[0] == s1.types[m].descriptors;
    assert xs[1..] == DescsOf(s2.types, rest);
    assert MergeAll(d0, xs) == MergeAll(MergeMissing(d0, xs[0]), xs[1..]);
  }

  lemma DistinctNames(ds: Assoc<Descriptor>)
    requires Keyed(ds)
    ensures forall i, j :: 0 <= i < j < |Descs(ds)| ==> Descs(ds)[i].name != Descs(ds)[j].name
  {
  }

  function Shown(name: string): string {
    if name == "" then "(unnamed)" else name
  }

  /** `compile(source, name)`: the template of the specification's Type,
      compiling it first when it has none. */
  function Compile(s: State, src: nat, name: string): (r: (State, Result<Value>))
    requires Valid(s) && src in s.objs
    ensures Grows(s, r.0) && Preserves(s, r.0, {})
    ensures src in r.0.typeOf
    ensures r.1.Ok? ==> r.0.status == s.status
    ensures src in s.typeOf ==> r.0 == s && r.1 == Ok(TemplateOf(s, s.typeOf[src]))
    ensures src !in s.typeOf ==> r.0.typeOf[src] == s.nextId && s.nextId !in s.types
    ensures src !in s.typeOf && r.1.Ok? ==> r.1.value == Proto(s.nextId) && r.0.types[s.nextId].built
    decreases |Pending(s)|, 2, 0
  {
    if src in s.typeOf then (s, Ok(TemplateOf(s, s.typeOf[src])))
    else
      var (s', r) := CompileType(s, src, name);
      (s', if r.Ok? then Ok(r.value.template) else Err(r.error))
  }

  /** `compileType` followed by `implementOn`: construct the Type, then
      extend it with its mixins and own members. */
  function CompileType(s: State, src: nat, name: string): (r: (State, Result<Built>))
    requires Valid(s) && src in s.objs && src !in s.typeOf
    ensures Grows(s, r.0) && Preserves(s, r.0, {})
    ensures src in r.0.typeOf && r.0.typeOf[src] == s.nextId && s.nextId !in s.types && s.nextId in r.0.types
    ensures r.1.Ok? ==> r.0.status == s.status && CompiledFrom(r.0, src, s.nextId, r.1.value)
    decreases |Pending(s)|, 1, 0
  {
    var (s1, rt) := NewType(s, src, name);
    if rt.Err? then (s1, Err(rt.error))
    else
      var t := rt.value;
      assert t == s.nextId && t !in s.status;
      var (s2, r2) := Extend(s1, src, t);
      Trans(s, s1, s2, {}, {t});
      (s2, r2)
  }

  /** Merge the mixins, then add the own members. */
  function Extend(s: State, src: nat, t: nat): (r: (State, Result<Built>))
    requires Valid(s) && src in s.objs && t in s.types && t !in s.status
    requires s.types[t].built && s.types[t].descriptors == [] && s.types[t].template == [] && s.types[t].mixins == map[]
    ensures Grows(s, r.0) && Preserves(s, r.0, {t}) && t in r.0.types
    ensures r.1.Ok? ==> r.0.status == s.status && CompiledFrom(r.0, src, t, r.1.value)
    decreases |Pending(s)|, 12, 0
  {
    var (s1, rm) := Extending(s, src, t);
    if rm.Err? then (s1, Err(rm.error))
    else
      PendingShrinks(s, s1);
      var (s2, r2) := Own(s1, src, t, rm.value);
      Trans(s, s1, s2, {t}, {t});
      (s2, r2)
  }

  /** `type[STATUS] = "extending"`, `compileMixins`, `delete type[STATUS]`:
      the flag is set while the mixins are merged and cleared afterwards. */
  function Extending(s: State, src: nat, t: nat): (r: (State, Result<seq<nat>>))
    requires Valid(s) && src in s.objs && t in s.types && t !in s.status && s.types[t].mixins == map[]
    ensures Grows(s, r.0) && Preserves(s, r.0, {t})
    ensures SameShell(s.types[t], r.0.types[t])
    ensures r.1.Ok? ==> r.0.status == s.status && MixedIn(s.types[t].descriptors, r.0, t, r.1.value)
    ensures r.1.Ok? ==> MixinsFrom(s.objs, src, r.0.types[t].mixins, r.1.value)
    decreases |Pending(s)|, 11, 0
  {
    var s1 := SetStatus(s, s.status + {t});
    var (s2, rm) := CompileMixins(s1, src, t);
    Trans(s, s1, s2, {}, {t});
    if rm.Err? then (s2, rm)
    else
      var s3 := SetStatus(s2, s2.status - {t});
      Trans(s, s2, s3, {t}, {});
      assert s3.status == s.status && s3.types == s2.types;
      ExtendingOk(s, s1, s2, s3, src, t, rm.value);
      (s3, rm)
  }

  /** Clearing the status flag keeps what the mixins produced. */
  lemma ExtendingOk(s: State, s1: State, s2: State, s3: State, src: nat, t: nat, applied: seq<nat>)
    requires src in s.objs && t in s.types && t in s2.types && s.types[t].mixins == map[]
    requires s1.objs == s.objs && s1.types == s.types && s3.types == s2.types
    requires SameShell(s1.types[t], s2.types[t]) && MixedIn(s1.types[t].descriptors, s2, t, applied)
    requires var names := MixinList(Get(s1.objs[src], "type$"));
      && names.Ok? && |applied| == |NonEmpty(names.value)|
      && s2.types[t].mixins == Record(s1.types[t].mixins, NonEmpty(names.value), applied)
    ensures SameShell(s.types[t], s3.types[t]) && MixedIn(s.types[t].descriptors, s3, t, applied)
    ensures MixinsFrom(s.objs, src, s3.types[t].mixins, applied)
  {
  }

  /** `compileDescriptors` then `implementOn`: build the own descriptors over
      the merged mixins and install them all on the template. */
  function Own(s: State, src: nat, t: nat, applied: seq<nat>): (r: (State, Result<Built>))
    requires Valid(s) && src in s.objs && t in s.types
    requires s.types[t].built && s.types[t].template == [] && MixedIn([], s, t, applied)
    ensures Grows(s, r.0) && Preserves(s, r.0, {t}) && t in r.0.types
    ensures r.1.Ok? ==> r.0.status == s.status && Compiled(r.0, t, r.1.value)
    ensures r.1.Ok? ==> r.1.value.applied == applied && r.0.types[t].mixins == s.types[t].mixins
    ensures r.1.Ok? ==> Declared(s.facets, s.objs, src, MemberKeys(s.objs[src]), r.1.value.created)
    ensures r.1.Ok? ==> Installs(r.0, t)
    decreases |Pending(s)|, 11, 0
  {
    var (s1, rd) := CompileDescriptors(s, src, t, s.objs[src]);
    if rd.Err? then (s1, Err(rd.error))
    else
      var (s2, template) := Finish(s1, t);
      Trans(s, s1, s2, {t}, {t});
      DescsOfStable(s, s2, applied, t);
      (s2, Ok(Built(template, applied, rd.value)))
  }

  /** `Object.freeze(type)` then `type.implementOn(type.prototype)`: every
      descriptor is installed on the fresh template. */
  function Finish(s: State, t: nat): (r: (State, Value))
    requires Valid(s) && t in s.types && s.types[t].template == []
    ensures Grows(s, r.0) && Preserves(s, r.0, {t})
    ensures r.1 == Proto(t)
    ensures r.0.status == s.status && r.0.typeOf == s.typeOf
    ensures r.0.types[t] == s.types[t].(template := r.0.types[t].template)
    ensures forall k :: k in Keys(s.types[t].descriptors) ==> k in Keys(r.0.types[t].template)
    ensures Installs(r.0, t)
  {
    var ty := s.types[t];
    var descs := Descs(ty.descriptors);
    DistinctNames(ty.descriptors);
    var target := Target([], map[], true);
    ImplementOnFresh(s.objs, descs, target, s.supers);
    ImplementOnFreshDefines(s.objs, descs, target, s.supers);
    var impl := ImplementOn(s.objs, descs, target, s.supers).value;
    var s1 := SetType(s, t, ty.(template := impl.0.own));
    (s1.(supers := impl.1), Proto(t))
  }

  /** `compileMixins`: read the mixin names from `type$`, then apply them
      left to right, skipping empty names; an error of a mixin is rethrown
      naming the Type and the mixin, a `type$` that cannot be split is not. */
  function CompileMixins(s: State, src: nat, t: nat): (r: (State, Result<seq<nat>>))
    requires Valid(s) && t in s.types && t in s.status && src in s.objs
    ensures Grows(s, r.0) && Preserves(s, r.0, {t})
    ensures SameShell(s.types[t], r.0.types[t])
    ensures s.types[t].mixins.Keys <= r.0.types[t].mixins.Keys
    ensures r.1.Ok? ==> r.0.status == s.status && MixedIn(s.types[t].descriptors, r.0, t, r.1.value)
    ensures var names := MixinList(Get(s.objs[src], "type$"));
      && (names.Err? ==> r == (s, Err(names.error)))
      && (names.Ok? && r.1.Ok? ==> (|r.1.value| == |NonEmpty(names.value)|
            && forall n :: n in names.value && n != "" ==> n in r.0.types[t].mixins))
      && (r.1.Ok? ==> names.Ok? && r.0.types[t].mixins == Record(s.types[t].mixins, NonEmpty(names.value), r.1.value))
      && (names.Ok? && r.1.Err? ==> (r.1.error.Implementing? && r.1.error.typeName == Shown(s.types[t].name)
            && r.1.error.mixinName in names.value && r.1.error.mixinName != ""))
    decreases |Pending(s)|, 10, 0
  {
    match MixinList(Get(s.objs[src], "type$"))
    case Err(e) => (s, Err(e))
    case Ok(names) => ApplyMixins(s, src, t, NonEmpty(names))
  }

  /** The loop of `compileMixins` over the names it does not skip. */
  function ApplyMixins(s: State, src: nat, t: nat, names: seq<string>): (r: (State, Result<seq<nat>>))
    requires Valid(s) && t in s.types && t in s.status && src in s.objs
    ensures Grows(s, r.0) && Preserves(s, r.0, {t})
    ensures SameShell(s.types[t], r.0.types[t])
    ensures s.types[t].mixins.Keys <= r.0.types[t].mixins.Keys
    ensures r.1.Ok? ==> r.0.status == s.status && MixedIn(s.types[t].descriptors, r.0, t, r.1.value)
    ensures r.1.Ok? ==> (|r.1.value| == |names| && forall n :: n in names ==> n in r.0.types[t].mixins)
    ensures r.1.Ok? ==> r.0.types[t].mixins == Record(s.types[t].mixins, names, r.1.value)
    ensures r.1.Err? ==> (r.1.error.Implementing? && r.1.error.typeName == Shown(s.types[t].name)
      && exists i :: 0 <= i < |names| && names[i] == r.1.error.mixinName
           && forall j :: 0 <= j < i ==> names[j] in r.0.types[t].mixins)
    decreases |Pending(s)|, 9, |names|
  {
    if |names| == 0 then (s, Ok([]))
    else
      var (s1, r1) := Mixin(s, src, t, names[0]);
      if r1.Err? then
        assert names[0] == names[0];
        (s1, Err(Implementing(Shown(s.types[t].name), names[0], r1.error)))
      else
        PendingShrinks(s, s1);
        var (s2, r2) := ApplyMixins(s1, src, t, names[1..]);
        MixinFrame(s, s1, s2, t);
        if r2.Err? then
          FailedLater(names, s1.types[t].mixins, s2.types[t].mixins, r2.error.mixinName);
          (s2, Err(r2.error))
        else
          AppliedCons(s.types[t].descriptors, s.types[t].mixins, s1, s2, t, names, r1.value, r2.value);
          (s2, Ok([r1.value] + r2.value))
  }

  /** Two mixin steps in a row change only Type `t`, and not its shell. */
  lemma MixinFrame(s: State, s1: State, s2: State, t: nat)
    requires Grows(s, s1) && Grows(s1, s2) && Preserves(s, s1, {t}) && Preserves(s1, s2, {t}) && t in s.types
    requires SameShell(s.types[t], s1.types[t]) && SameShell(s1.types[t], s2.types[t])
    requires s.types[t].mixins.Keys <= s1.types[t].mixins.Keys <= s2.types[t].mixins.Keys
    ensures Grows(s, s2) && Preserves(s, s2, {t})
    ensures SameShell(s.types[t], s2.types[t]) && s.types[t].mixins.Keys <= s2.types[t].mixins.Keys
  {
    Trans(s, s1, s2, {t}, {t});
  }

  /** One mixin applied and recorded before the rest. */
  lemma AppliedCons(d0: Assoc<Descriptor>, m0: map<string, nat>, s1: State, s2: State, t: nat, names: seq<string>,
                    m: nat, rest: seq<nat>)
    requires |names| > 0 && Preserves(s1, s2, {t}) && t in s1.types && t in s2.types && m in s1.types && m != t
    requires s1.types[t].descriptors == MergeMissing(d0, s1.types[m].descriptors)
    requires s1.types[t].mixins == m0[names[0] := m] && s1.types[t].mixins.Keys <= s2.types[t].mixins.Keys
    requires MixedIn(s1.types[t].descriptors, s2, t, rest)
    requires |rest| == |names[1..]| && forall n :: n in names[1..] ==> n in s2.types[t].mixins
    requires s2.types[t].mixins == Record(s1.types[t].mixins, names[1..], rest)
    ensures MixedIn(d0, s2, t, [m] + rest)
    ensures |[m] + rest| == |names| && forall n :: n in names ==> n in s2.types[t].mixins
    ensures s2.types[t].mixins == Record(m0, names, [m] + rest)
  {
    MixedInCons(d0, s1, s2, t, m, rest);
    assert ([m] + rest)[1..] == rest;
    forall n | n in names ensures n in s2.types[t].mixins {
      if n != names[0] {
        var i :| 0 <= i < |names| && names[i] == n;
        assert names[1..][i - 1] == n;
      }
    }
  }

  /** The first name was recorded, so a failure found among the rest is a
      failure after a run of recorded names. */
  lemma FailedLater(names: seq<string>, m1: map<string, nat>, m2: map<string, nat>, n: string)
    requires |names| > 0 && names[0] in m1 && m1.Keys <= m2.Keys
    requires exists i :: 0 <= i < |names[1..]| && names[1..][i] == n && forall j :: 0 <= j < i ==> names[1..][j] in m2
    ensures exists i :: 0 <= i < |names| && names[i] == n && forall j :: 0 <= j < i ==> names[j] in m2
  {
    var i :| 0 <= i < |names[1..]| && names[1..][i] == n && forall j :: 0 <= j < i ==> names[1..][j] in m2;
    forall j | 0 <= j < i + 1 ensures names[j] in m2 {
      if j > 0 { assert names[j] == names[1..][j - 1]; }
    }
  }

  /** `mixin(source, typeName)`: resolve the name, refuse a Type whose status
      flag is set, copy the members the Type does not have yet, and record the
      mixin under its declared name. */
  function Mixin(s: State, src: nat, t: nat, typeName: string): (r: (State, Result<nat>))
    requires Valid(s) && t in s.types && t in s.status && src in s.objs
    ensures Grows(s, r.0) && Preserves(s, r.0, {t})
    ensures SameShell(s.types[t], r.0.types[t])
    ensures s.types[t].mixins.Keys <= r.0.types[t].mixins.Keys
    ensures r.1.Ok? ==> r.0.status == s.status
    ensures r.1.Ok? ==> (r.1.value in r.0.types && r.1.value != t && r.1.value !in r.0.status
      && r.0.types[t].descriptors == MergeMissing(s.types[t].descriptors, r.0.types[r.1.value].descriptors)
      && r.0.types[t].mixins == s.types[t].mixins[typeName := r.1.value])
    decreases |Pending(s)|, 6, 0
  {
    var (s1, found) := ForName(s, src, typeName);
    match MixinTarget(s1, typeName, found)
    case Err(e) => (s1, Err(e))
    case Ok(m) =>
      var ty := s1.types[t];
      var merged := MergeMissing(ty.descriptors, s1.types[m].descriptors);
      var s2 := SetType(s1, t, ty.(descriptors := merged, mixins := ty.mixins[typeName := m]));
      Trans(s, s1, s2, {}, {t});
      (s2, Ok(m))
  }

  /** The checks `mixin` makes on what `forName` returned: a falsy value is
      not found, a value without a Type is not a Type, and a Type whose status
      flag is set closes a cycle. */
  function MixinTarget(s: State, typeName: string, found: Result<Value>): (r: Result<nat>)
    requires Valid(s)
    ensures r.Ok? <==> (found.Ok? && Truthy(found.value) && TypeTag(s, found.value).Some?
      && TypeTag(s, found.value).value !in s.status)
    ensures r.Ok? ==> r.value == TypeTag(s, found.value).value && r.value in s.types
    ensures found.Err? ==> r == Err(found.error)
    ensures found.Ok? && !Truthy(found.value) ==> r == Err(NotFound(typeName))
    ensures found.Ok? && Truthy(found.value) && TypeTag(s, found.value).None? ==> r == Err(NotAType(typeName))
    ensures found.Ok? && Truthy(found.value) && TypeTag(s, found.value).Some? && TypeTag(s, found.value).value in s.status
      ==> r == Err(TypeCycle)
  {
    if found.Err? then Err(found.error)
    else if !Truthy(found.value) then Err(NotFound(typeName))
    else
      match TypeTag(s, found.value)
      case None => Err(NotAType(typeName))
      case Some(m) => if m in s.status then Err(TypeCycle) else Ok(m)
  }

  /** `forName(source, name)`: walk the scopes innermost first and resolve
      the first truthy binding of `name`. */
  function ForName(s: State, src: nat, name: string): (r: (State, Result<Value>))
    requires Valid(s)
    ensures Grows(s, r.0) && Preserves(s, r.0, {})
    ensures r.1.Ok? ==> r.0.status == s.status
    decreases |Pending(s)|, 5, 0
  {
    var (scopes, loops) := ScopeChain(s, src);
    Walk(s, scopes, loops, name, 0)
  }

  function Walk(s: State, scopes: seq<nat>, loops: bool, name: string, i: nat): (r: (State, Result<Value>))
    requires Valid(s) && i <= |scopes|
    ensures Grows(s, r.0) && Preserves(s, r.0, {})
    ensures r.1.Ok? ==> r.0.status == s.status
    decreases |Pending(s)|, 4, |scopes| - i
  {
    if i == |scopes| then (s, if loops then Err(ScopeLoop) else Ok(Undefined))
    else
      var v := Binding(s, scopes[i], name);
      if Truthy(v) then Resolve(s, scopes[i], v, name)
      else Walk(s, scopes, loops, name, i + 1)
  }

  /** A truthy binding found in `scope`: a compiled specification or template
      gives its Type's template, an uncompiled specification is compiled with
      `scope` recorded as its scope, anything else is returned as it is. */
  function Resolve(s: State, scope: nat, v: Value, name: string): (r: (State, Result<Value>))
    requires Valid(s)
    ensures Grows(s, r.0) && Preserves(s, r.0, {})
    ensures r.1.Ok? ==> r.0.status == s.status
    ensures TypeTag(s, v).Some? ==> r == (s, Ok(TemplateOf(s, TypeTag(s, v).value)))
    ensures TypeTag(s, v).None? && !IsSpec(s.objs, v) ==> r == (s, Ok(v))
    ensures TypeTag(s, v).None? && IsSpec(s.objs, v) ==>
      && v.o in r.0.typeOf && r.0.typeOf[v.o] == s.nextId
      && (r.1.Ok? ==> r.1.value == Proto(s.nextId))
    decreases |Pending(s)|, 3, 0
  {
    match TypeTag(s, v)
    case Some(t) => (s, Ok(TemplateOf(s, t)))
    case None =>
      if IsSpec(s.objs, v) then
        var s1 := SetScope(s, v.o, scope);
        var (s2, r2) := Compile(s1, v.o, name);
        Trans(s, s1, s2, {}, {});
        (s2, r2)
      else (s, Ok(v))
  }

  /** `compileDescriptors`: one descriptor per member declaration, in
      declaration order, each assigned under its member name; directive keys
      are skipped. */
  function CompileDescriptors(s: State, src: nat, t: nat, decls: Assoc<Value>): (r: (State, Result<seq<Descriptor>>))
    requires Valid(s) && t in s.types && src in s.objs
    ensures Grows(s, r.0) && Preserves(s, r.0, {t})
    ensures r.0.types[t] == s.types[t].(descriptors := r.0.types[t].descriptors)
    ensures r.1.Ok? ==> r.0.status == s.status
    ensures r.1.Ok? ==> r.0.types[t].descriptors == FoldPut(s.types[t].descriptors, r.1.value)
    ensures r.1.Ok? ==> Declared(s.facets, s.objs, src, MemberKeys(decls), r.1.value)
    decreases |Pending(s)|, 10, 0
  {
    DeclareAll(s, src, t, MemberKeys(decls))
  }

  /** The loop of `compileDescriptors` over the member declarations. */
  function DeclareAll(s: State, src: nat, t: nat, keys: seq<string>): (r: (State, Result<seq<Descriptor>>))
    requires Valid(s) && t in s.types && src in s.objs
    ensures Grows(s, r.0) && Preserves(s, r.0, {t})
    ensures r.0.types[t] == s.types[t].(descriptors := r.0.types[t].descriptors)
    ensures r.1.Ok? ==> r.0.status == s.status
    ensures r.1.Ok? ==> r.0.types[t].descriptors == FoldPut(s.types[t].descriptors, r.1.value)
    ensures r.1.Ok? ==> Declared(s.facets, s.objs, src, keys, r.1.value)
    decreases |Pending(s)|, 9, |keys|
  {
    if |keys| == 0 then (s, Ok([]))
    else
      var (s1, rd) := Declare(s, src, t, keys[0]);
      if rd.Err? then (s1, Err(rd.error))
      else
        PendingShrinks(s, s1);
        var (s2, rest) := DeclareAll(s1, src, t, keys[1..]);
        Trans(s, s1, s2, {t}, {t});
        assert s2.types[t] == s.types[t].(descriptors := s2.types[t].descriptors);
        if rest.Err? then (s2, Err(rest.error))
        else
          DeclaredCons(s.facets, s.objs, src, keys, rd.value, rest.value);
          var cs := [rd.value] + rest.value;
          assert cs[1..] == rest.value;
          assert FoldPut(s.types[t].descriptors, cs) == FoldPut(s1.types[t].descriptors, rest.value);
          (s2, Ok(cs))
  }

  lemma DeclaredCons(facets: map<string, Facet>, objs: Store, src: nat, keys: seq<string>, d: Descriptor,
                     cs: seq<Descriptor>)
    requires src in objs && |keys| > 0
    requires DeclaredBy(facets, objs, src, keys[0], d) && Declared(facets, objs, src, keys[1..], cs)
    ensures Declared(facets, objs, src, keys, [d] + cs)
  {
    var cs' := [d] + cs;
    forall j | 0 <= j < |cs'| ensures DeclaredBy(facets, objs, src, keys[j], cs'[j]) {
      if j > 0 {
        assert keys[j] == keys[1..][j - 1] && cs'[j] == cs[j - 1];
      }
    }
  }

  /** One member declaration: build its descriptor and assign it. */
  function Declare(s: State, src: nat, t: nat, key: string): (r: (State, Result<Descriptor>))
    requires Valid(s) && t in s.types && src in s.objs
    ensures Grows(s, r.0) && Preserves(s, r.0, {t})
    ensures r.1.Err? ==> r.0.types[t] == s.types[t]
    ensures r.1.Ok? ==> (r.0.status == s.status && DeclaredBy(s.facets, s.objs, src, key, r.1.value)
      && r.0.types[t] == s.types[t].(descriptors := Put(s.types[t].descriptors, r.1.value.name, r.1.value)))
    decreases |Pending(s)|, 8, 0
  {
    var (s1, rd) := CreateDescriptor(s, src, key);
    if rd.Err? then (s1, Err(rd.error))
    else
      var s2 := Assign(s1, t, rd.value);
      Trans(s, s1, s2, {}, {t});
      (s2, rd)
  }

  /** `descriptors[desc.name] = desc`. */
  function Assign(s: State, t: nat, d: Descriptor): (s': State)
    requires Valid(s) && t in s.types
    ensures Grows(s, s') && Preserves(s, s', {t})
    ensures s'.types[t] == s.types[t].(descriptors := Put(s.types[t].descriptors, d.name, d))
    ensures s'.status == s.status
  {
    KeyedPut(s.types[t].descriptors, d);
    SetType(s, t, s.types[t].(descriptors := Put(s.types[t].descriptors, d.name, d)))
  }

  /** The expression of a member: a nested specification is first given
      its enclosing scope and then resolved by name from itself outwards. */
  function MemberValue(s: State, src: nat, v: Value, name: string): (r: (State, Result<Value>))
    requires Valid(s) && src in s.objs
    ensures Grows(s, r.0) && Preserves(s, r.0, {})
    ensures r.1.Ok? ==> r.0.status == s.status
    ensures !IsSpec(s.objs, v) ==> r == (s, Ok(v))
    decreases |Pending(s)|, 6, 0
  {
    if IsSpec(s.objs, v) then
      var s1 := SetScope(s, v.o, src);
      var (s2, r2) := ForName(s1, v.o, name);
      Trans(s, s1, s2, {}, {});
      (s2, r2)
    else (s, Ok(v))
  }

  /** `createDescriptor(decl, scope)`: parse the key, resolve a nested
      specification through the scope walk, and let the facet build the
      descriptor. */
  function CreateDescriptor(s: State, src: nat, decl: string): (r: (State, Result<Descriptor>))
    requires Valid(s) && src in s.objs
    ensures Grows(s, r.0) && Preserves(s, r.0, {})
    ensures r.1.Ok? ==> r.0.status == s.status
    ensures r.1.Ok? ==> DeclaredBy(s.facets, s.objs, src, decl, r.1.value)
    ensures ParseDeclaration(s.facets, decl).Err? ==> r == (s, Err(ParseDeclaration(s.facets, decl).error))
    ensures (ParseDeclaration(s.facets, decl).Ok? && ParseDeclaration(s.facets, decl).value.1.None?
      && !IsSpec(s.objs, Get(s.objs[src], decl))) ==> r == (s, Err(DefaultFacetMissing))
    decreases |Pending(s)|, 7, 0
  {
    match ParseDeclaration(s.facets, decl)
    case Err(e) => (s, Err(e))
    case Ok((name, facet)) =>
      var (s1, expr) := MemberValue(s, src, Get(s.objs[src], decl), name);
      if expr.Err? then (s1, Err(expr.error))
      else
        match facet
        case None => (s1, Err(DefaultFacetMissing))
        case Some(f) => (s1, Ok(NewDescriptor(f, name, expr.value)))
  }

  /** The nested-specification test as `createDescriptor` writes it:
      `typeof v == "object"` holds for null, and `Object.hasOwn(null, ...)`
      throws. */
  function NestedSpecCheckAsWritten(objs: Store, key: string, v: Value): (r: Result<bool>)
    ensures r.Err? <==> v == Prim(Null)
    ensures v != Prim(Null) ==> r == Ok(IsSpec(objs, v))
  {
    if !IsTypeofObject(v) then Ok(false)
    else if v == Prim(Null) then Err(NullMember(key))
    else Ok(IsSpec(objs, v))
  }

  /** With the corrected test a null member is an ordinary member: it gets a
      descriptor of its facet holding null. */
  lemma NullMemberIsPlain(s: State, src: nat, decl: string, f: Facet)
    requires Valid(s) && src in s.objs
    requires Get(s.objs[src], decl) == Prim(Null)
    requires ParseDeclaration(s.facets, decl) == Ok((MemberOf(decl), Some(f)))
    ensures CreateDescriptor(s, src, decl) == (s, Ok(NewDescriptor(f, MemberOf(decl), Prim(Null))))
  {
  }

  /** A nested specification gets the specification holding it as its
      scope, so the scope chain from it starts with itself and then that
      specification. */
  lemma NestedScopeChain(s: State, src: nat, o: nat)
    requires Valid(s) && o != src
    ensures var c := ScopeChain(SetScope(s, o, src), o).0;
      |c| >= 2 && c[0] == o && c[1] == src
  {
    var s1 := SetScope(s, o, src);
    var (c, loops) := ScopeChain(s1, o);
    assert o in s1.scopeOf && s1.scopeOf[o] == src;
  }

  /** A member `decl` holding an uncompiled nested specification that does
      not bind `decl` itself: the walk from the nested specification finds it
      in the holding specification, compiles it under the member's name with
      that scope recorded, and the descriptor holds the template of the new
      Type; a failing compilation is the member's error. */
  lemma NestedSpecCompiled(s: State, src: nat, decl: string, f: Facet)
    requires Valid(s) && src in s.objs
    requires '$' !in decl && DefaultPolicy(s.facets) == Some(f)
    requires var v := Get(s.objs[src], decl);
      IsSpec(s.objs, v) && v.o != src && v.o !in s.typeOf && !Truthy(Get(s.objs[v.o], decl))
    ensures var o := Get(s.objs[src], decl).o;
      var c := Compile(SetScope(s, o, src), o, decl);
      CreateDescriptor(s, src, decl) == (c.0, if c.1.Ok? then Ok(NewDescriptor(f, decl, c.1.value)) else Err(c.1.error))
    ensures CreateDescriptor(s, src, decl).1.Ok? ==>
      CreateDescriptor(s, src, decl).1.value == NewDescriptor(f, decl, Proto(s.nextId))
  {
    PlainKeyDescriptor(s, src, decl, f);
    NestedMemberValue(s, src, Get(s.objs[src], decl), decl);
  }

  /** The member value of such a nested specification is the result of
      compiling it with its holder as scope. */
  lemma NestedMemberValue(s: State, src: nat, v: Value, name: string)
    requires Valid(s) && src in s.objs && v == Get(s.objs[src], name)
    requires IsSpec(s.objs, v) && v.o != src && v.o !in s.typeOf && !Truthy(Get(s.objs[v.o], name))
    ensures MemberValue(s, src, v, name) == Compile(SetScope(s, v.o, src), v.o, name)
  {
    MemberValueSpec(s, src, v, name);
    NestedForName(s, src, v, name);
  }

  lemma NestedForName(s: State, src: nat, v: Value, name: string)
    requires Valid(s) && src in s.objs && v == Get(s.objs[src], name)
    requires IsSpec(s.objs, v) && v.o != src && v.o !in s.typeOf && !Truthy(Get(s.objs[v.o], name))
    ensures var s1 := SetScope(s, v.o, src);
      ForName(s1, v.o, name) == Compile(s1, v.o, name)
  {
    var s1 := SetScope(s, v.o, src);
    NestedLookup(s, src, v.o, name);
    ResolveScoped(s1, src, v, name);
  }

  /** The walk from a nested specification that does not bind `name` goes
      on to the specification holding it. */
  lemma NestedLookup(s: State, src: nat, o: nat, name: string)
    requires Valid(s) && src in s.objs && o in s.objs && o != src
    requires Truthy(Get(s.objs[src], name)) && !Truthy(Get(s.objs[o], name))
    ensures var s1 := SetScope(s, o, src);
      ForName(s1, o, name) == Resolve(s1, src, Get(s.objs[src], name), name)
  {
    var s1 := SetScope(s, o, src);
    NestedScopeChain(s, src, o);
    assert Binding(s1, o, name) == Get(s.objs[o], name);
    assert Binding(s1, src, name) == Get(s.objs[src], name);
    ForNameFirstBinding(s1, o, name, 1);
  }

  /** A key without `$` under a default facet: the descriptor of the member
      value. */
  lemma PlainKeyDescriptor(s: State, src: nat, decl: string, f: Facet)
    requires Valid(s) && src in s.objs
    requires '$' !in decl && DefaultPolicy(s.facets) == Some(f)
    ensures var m := MemberValue(s, src, Get(s.objs[src], decl), decl);
      CreateDescriptor(s, src, decl) == (m.0, if m.1.Ok? then Ok(NewDescriptor(f, decl, m.1.value)) else Err(m.1.error))
  {
    ParseNoFacet(s.facets, decl);
  }

  /** A member value that is a specification is looked up by name from
      the specification itself, once it records its holder as its scope. */
  lemma MemberValueSpec(s: State, src: nat, v: Value, name: string)
    requires Valid(s) && src in s.objs && IsSpec(s.objs, v)
    ensures MemberValue(s, src, v, name) == ForName(SetScope(s, v.o, src), v.o, name)
  {
  }

  /** The same when the specification already records that scope. */
  lemma ResolveScoped(s: State, scope: nat, v: Value, name: string)
    requires Valid(s) && IsSpec(s.objs, v) && v.o !in s.typeOf
    requires v.o in s.scopeOf && s.scopeOf[v.o] == scope
    ensures Resolve(s, scope, v, name) == Compile(s, v.o, name)
  {
    SetScopeAgain(s, v.o, scope);
    ResolveSpec(s, scope, v, name);
  }

  /** Recording the scope a specification already records changes nothing. */
  lemma SetScopeAgain(s: State, o: nat, scope: nat)
    requires Valid(s) && o in s.scopeOf && s.scopeOf[o] == scope
    ensures SetScope(s, o, scope) == s
  {
    assert s.scopeOf[o := scope] == s.scopeOf;
  }

  /** `forName` meeting an uncompiled specification: it records the scope
      it was found in and compiles it under the name looked up. */
  lemma ResolveSpec(s: State, scope: nat, v: Value, name: string)
    requires Valid(s) && IsSpec(s.objs, v) && v.o !in s.typeOf
    ensures Resolve(s, scope, v, name) == Compile(SetScope(s, v.o, scope), v.o, name)
  {
  }

  // ------------------------------------------------------------ properties

  /** Memoization: compiling a specification again returns the same template
      and changes nothing, whatever name is passed. */
  lemma CompileIsMemoized(s: State, src: nat, name: string, name2: string)
    requires Valid(s) && src in s.objs
    ensures var (s1, r1) := Compile(s, src, name);
      r1.Ok? ==> Compile(s1, src, name2) == (s1, r1)
  {
  }

  /** Ids: a newly compiled specification's Type has an id larger than the id
      of every Type that existed before, and the counter moves past it. */
  lemma FreshIdsIncrease(s: State, src: nat, name: string)
    requires Valid(s) && src in s.objs && src !in s.typeOf
    ensures var s1 := Compile(s, src, name).0;
      && (forall u :: u in s.types ==> u < s1.typeOf[src])
      && s1.typeOf[src] in s1.types
      && s1.nextId > s1.typeOf[src]
  {
  }

  /** The status flag: while a Type's mixins are merged, a mixin name that
      resolves to a Type whose mixins are being merged (the Type itself, or
      one that is compiling it) is refused as a cycle. */
  lemma MixinInProgressIsCycle(s: State, src: nat, t: nat, typeName: string, j: nat, m: nat)
    requires Valid(s) && t in s.types && t in s.status && src in s.objs
    requires m in s.status && s.types[m].built
    requires var scopes := ScopeChain(s, src).0;
      && j < |scopes|
      && Truthy(Binding(s, scopes[j], typeName)) && TypeTag(s, Binding(s, scopes[j], typeName)) == Some(m)
      && forall k :: 0 <= k < j ==> !Truthy(Binding(s, scopes[k], typeName))
    ensures Mixin(s, src, t, typeName).1 == Err(TypeCycle)
  {
    ForNameFirstBinding(s, src, typeName, j);
    var scopes := ScopeChain(s, src).0;
    var v := Binding(s, scopes[j], typeName);
    assert Resolve(s, scopes[j], v, typeName) == (s, Ok(Proto(m)));
    assert Truthy(Proto(m)) && TypeTag(s, Proto(m)) == Some(m);
  }

  /** Scopes where the name is unbound or falsy are passed over. */
  lemma {:induction false} WalkSkips(s: State, scopes: seq<nat>, loops: bool, name: string, i: nat, j: nat)
    requires Valid(s) && i <= j <= |scopes|
    requires forall k :: i <= k < j ==> !Truthy(Binding(s, scopes[k], name))
    ensures Walk(s, scopes, loops, name, i) == Walk(s, scopes, loops, name, j)
    decreases j - i
  {
    if i < j {
      WalkSkips(s, scopes, loops, name, i + 1, j);
    }
  }

  /** Innermost first: `forName` resolves the first truthy binding along the
      scope chain. */
  lemma ForNameFirstBinding(s: State, src: nat, name: string, j: nat)
    requires Valid(s)
    requires var scopes := ScopeChain(s, src).0;
      && j < |scopes| && Truthy(Binding(s, scopes[j], name))
      && forall k :: 0 <= k < j ==> !Truthy(Binding(s, scopes[k], name))
    ensures var scopes := ScopeChain(s, src).0;
      ForName(s, src, name) == Resolve(s, scopes[j], Binding(s, scopes[j], name), name)
  {
    var (scopes, loops) := ScopeChain(s, src);
    WalkSkips(s, scopes, loops, name, 0, j);
  }

  /** A name bound nowhere gives undefined at the end of the chain, and the
      ScopeLoop error when the chain closes on itself. */
  lemma ForNameUnbound(s: State, src: nat, name: string)
    requires Valid(s)
    requires var scopes := ScopeChain(s, src).0;
      forall k :: 0 <= k < |scopes| ==> !Truthy(Binding(s, scopes[k], name))
    ensures ForName(s, src, name) == (s, if ScopeChain(s, src).1 then Err(ScopeLoop) else Ok(Undefined))
  {
    var (scopes, loops) := ScopeChain(s, src);
    WalkSkips(s, scopes, loops, name, 0, |scopes|);
  }

  /** A mixin name bound nowhere along a scope chain that ends is reported as
      not found. */
  lemma UnboundMixinNotFound(s: State, src: nat, t: nat, typeName: string)
    requires Valid(s) && t in s.types && t in s.status && src in s.objs
    requires var (scopes, loops) := ScopeChain(s, src);
      !loops && forall j :: 0 <= j < |scopes| ==> !Truthy(Binding(s, scopes[j], typeName))
    ensures Mixin(s, src, t, typeName).1 == Err(NotFound(typeName))
  {
    ForNameUnbound(s, src, typeName);
  }

  /** Each key of a specification parsed as a declaration, in order. */
  function ParseAll(facets: map<string, Facet>, keys: seq<string>): (r: seq<Result<(string, Option<Facet>)>>)
    ensures |r| == |keys| && forall i :: 0 <= i < |keys| ==> r[i] == ParseDeclaration(facets, keys[i])
  {
    seq(|keys|, i requires 0 <= i < |keys| => ParseDeclaration(facets, keys[i]))
  }

  /** The position of the last parsed declaration of member `k`, or -1. */
  function LastDeclaring(ps: seq<Result<(string, Option<Facet>)>>, k: string): (r: int)
    ensures -1 <= r < |ps|
    ensures r == -1 <==> forall j :: 0 <= j < |ps| ==> !(ps[j].Ok? && ps[j].value.0 == k)
    ensures r >= 0 ==> ps[r].Ok? && ps[r].value.0 == k
    ensures r >= 0 ==> forall j :: r < j < |ps| ==> !(ps[j].Ok? && ps[j].value.0 == k)
  {
    if |ps| == 0 then -1
    else if ps[|ps| - 1].Ok? && ps[|ps| - 1].value.0 == k then |ps| - 1
    else LastDeclaring(ps[..|ps| - 1], k)
  }

  /** Descriptors built one per key in order: the last descriptor named `k`
      is the one built from the last key declaring `k`. */
  lemma {:induction false} LastNamedDeclared(facets: map<string, Facet>, objs: Store, src: nat, keys: seq<string>,
                                             cs: seq<Descriptor>, k: string)
    requires src in objs && Declared(facets, objs, src, keys, cs)
    ensures LastNamed(cs, k) == LastDeclaring(ParseAll(facets, keys), k)
    decreases |keys|
  {
    if |keys| > 0 {
      var n := |keys| - 1;
      assert DeclaredBy(facets, objs, src, keys[n], cs[n]);
      forall j | 0 <= j < n ensures DeclaredBy(facets, objs, src, keys[..n][j], cs[..n][j]) {
        assert DeclaredBy(facets, objs, src, keys[j], cs[j]);
      }
      LastNamedDeclared(facets, objs, src, keys[..n], cs[..n], k);
      assert ParseAll(facets, keys)[..n] == ParseAll(facets, keys[..n]);
    }
  }

  /** Composition: in a Type compiled from a specification, a member the
      specification declares holds the descriptor built from its last
      declaration; any other member holds the descriptor of the leftmost
      mixin that has it, and a member nobody has is absent. */
  lemma OwnBeforeMixins(s: State, src: nat, t: nat, b: Built, k: string)
    requires CompiledFrom(s, src, t, b)
    ensures var keys := MemberKeys(s.objs[src]);
      var l := LastDeclaring(ParseAll(s.facets, keys), k);
      var ds := s.types[t].descriptors;
      var mixed := DescsOf(s.types, b.applied);
      && (l >= 0 ==> Lookup(ds, k).Some? && DeclaredBy(s.facets, s.objs, src, keys[l], Lookup(ds, k).value))
      && (l < 0 ==> forall i :: (0 <= i < |mixed| && k in Keys(mixed[i]) &&
            (forall j :: 0 <= j < i ==> k !in Keys(mixed[j]))) ==> Lookup(ds, k) == Lookup(mixed[i], k))
      && (l < 0 && (forall i :: 0 <= i < |mixed| ==> k !in Keys(mixed[i])) ==> k !in Keys(ds))
  {
    Composed(s.facets, s.objs, src, MemberKeys(s.objs[src]), b.created, DescsOf(s.types, b.applied),
             s.types[t].descriptors, k);
  }

  lemma Composed(facets: map<string, Facet>, objs: Store, src: nat, keys: seq<string>, created: seq<Descriptor>,
                 mixed: seq<Assoc<Descriptor>>, ds: Assoc<Descriptor>, k: string)
    requires src in objs && Declared(facets, objs, src, keys, created)
    requires ds == FoldPut(MergeAll([], mixed), created)
    ensures var l := LastDeclaring(ParseAll(facets, keys), k);
      && (l >= 0 ==> Lookup(ds, k).Some? && DeclaredBy(facets, objs, src, keys[l], Lookup(ds, k).value))
      && (l < 0 ==> forall i :: (0 <= i < |mixed| && k in Keys(mixed[i]) &&
            (forall j :: 0 <= j < i ==> k !in Keys(mixed[j]))) ==> Lookup(ds, k) == Lookup(mixed[i], k))
      && (l < 0 && (forall i :: 0 <= i < |mixed| ==> k !in Keys(mixed[i])) ==> k !in Keys(ds))
  {
    LastNamedDeclared(facets, objs, src, keys, created, k);
    FoldPutLastWins(MergeAll([], mixed), created, k);
    MergeAllFirstWins([], mixed, k);
    var l := LastNamed(created, k);
    if l >= 0 {
      assert DeclaredBy(facets, objs, src, keys[l], created[l]);
    }
  }

  /** The mixins merged are the ones `type$` names, in order: the i-th
      non-empty name is recorded with the i-th Type merged, unless a later
      piece repeats the name. */
  lemma AppliedAsNamed(s: State, src: nat, t: nat, b: Built, i: nat)
    requires CompiledFrom(s, src, t, b)
    requires var names := NonEmpty(MixinList(Get(s.objs[src], "type$")).value);
      i < |names| && forall j :: i < j < |names| ==> names[j] != names[i]
    ensures var names := NonEmpty(MixinList(Get(s.objs[src], "type$")).value);
      names[i] in s.types[t].mixins && s.types[t].mixins[names[i]] == b.applied[i]
  {
    var names := NonEmpty(MixinList(Get(s.objs[src], "type$")).value);
    RecordAt(map[], names, b.applied, i);
  }

  /** From specification to instances: when the last declaration of `k` in
      a compiled specification is a plain value `v` under a facet other than
      extend, the Type's template holds exactly the property that facet
      defines for `v`, which is what the instance lemmas of each facet
      start from. */
  lemma CompiledMemberInstalled(s: State, src: nat, t: nat, b: Built, k: string, f: Facet)
    requires CompiledFrom(s, src, t, b)
    requires var keys := MemberKeys(s.objs[src]);
      var l := LastDeclaring(ParseAll(s.facets, keys), k);
      && l >= 0 && f != ExtendFacet
      && ParseDeclaration(s.facets, keys[l]) == Ok((k, Some(f)))
      && !IsSpec(s.objs, Get(s.objs[src], keys[l]))
    ensures var keys := MemberKeys(s.objs[src]);
      Installed(s.types[t].template, f, k, Get(s.objs[src], keys[LastDeclaring(ParseAll(s.facets, keys), k)]))
  {
    OwnBeforeMixins(s, src, t, b, k);
    var keys := MemberKeys(s.objs[src]);
    var ds := s.types[t].descriptors;
    var d := Lookup(ds, k).value;
    assert DeclaredBy(s.facets, s.objs, src, keys[LastDeclaring(ParseAll(s.facets, keys), k)], d);
    LookupFresh(s.objs, s.types[t].template, ds, k);
  }

  /** The descriptor found under a name is one the template was built from. */
  lemma LookupFresh(objs: Store, template: Assoc<PropDesc>, ds: Assoc<Descriptor>, k: string)
    requires StoreWellFormed(objs) && KeysUnique(ds)
    requires forall i :: 0 <= i < |ds| ==> DefinedFresh(objs, template, ds[i].1)
    ensures Lookup(ds, k).Some? ==> DefinedFresh(objs, template, Lookup(ds, k).value)
  {
    if Lookup(ds, k).Some? {
      var i :| 0 <= i < |ds| && ds[i].0 == k;
      assert DefinedFresh(objs, template, ds[i].1);
    }
  }
}
